/** The textual forms of section 2.2 of RFC 4291: groups, compressed runs of zeros and dotted
    tails, what lower-casing does to them, and the 128-bit numbers they stand for. */
module Ipv6Spelling {
  import opened Arithmetic
  import opened Wrappers
  import opened Text
  import opened IpAddress

  // ---------- forms ----------

  predicate IsAnyHexDigit(c: char) {
    '0' <= c <= '9' || 'a' <= c <= 'f' || 'A' <= c <= 'F'
  }

  function AnyHexDigitValue(c: char): (v: nat)
    requires IsAnyHexDigit(c)
    ensures v < 16
  {
    if '0' <= c <= '9' then c as int - '0' as int
    else if 'a' <= c <= 'f' then c as int - 'a' as int + 10
    else c as int - 'A' as int + 10
  }

  /** One group: one to four digits in either case, leading zeros or not. */
  predicate IsGroupText(t: string) {
    1 <= |t| <= 4 && forall i :: 0 <= i < |t| ==> IsAnyHexDigit(t[i])
  }

  function GroupValue(t: string): nat
    requires forall i :: 0 <= i < |t| ==> IsAnyHexDigit(t[i])
  {
    if t == "" then 0 else GroupValue(t[..|t| - 1]) * 16 + AnyHexDigitValue(t[|t| - 1])
  }

  function GroupValues(parts: seq<string>): (g: seq<nat>)
    requires forall p :: p in parts ==> IsGroupText(p)
    ensures |g| == |parts|
  {
    seq(|parts|, i requires 0 <= i < |parts| => assert parts[i] in parts && IsGroupText(parts[i]); GroupValue(parts[i]))
  }

  function ZeroValues(n: nat): (z: seq<nat>)
    ensures |z| == n
  {
    seq(n, i => 0)
  }

  /** Groups joined by colons; no text for no groups. */
  function JoinGroups(parts: seq<string>): string {
    if parts == [] then "" else Join(parts, ':')
  }

  /** Groups each followed by a colon. */
  function Lead(parts: seq<string>): string {
    if parts == [] then "" else Lead(parts[..|parts| - 1]) + parts[|parts| - 1] + ":"
  }

  /** A way to write an address: the groups before "::" (when there is one), those after it or all of them,
      and the last 32 bits in dotted form or not. Octets padded with zeros are included here. */
  datatype Spelling = Spelling(left: seq<string>, compressed: bool, right: seq<string>, dotted: Option<string>) {

    predicate Valid() {
      && (forall p :: p in left ==> IsGroupText(p)) && (forall p :: p in right ==> IsGroupText(p))
      && (dotted.Some? ==> ParseIpv4(dotted.value).Some?)
      && (if compressed then |left| + |RightGroups()| <= 7 else left == [] && |RightGroups()| == 8)
    }

    function Text(): string {
      (if compressed then JoinGroups(left) + "::" else "")
      + match dotted
        case None => JoinGroups(right)
        case Some(quad) => Lead(right) + quad
    }

    function RightGroups(): seq<nat>
      requires forall p :: p in right ==> IsGroupText(p)
      requires dotted.Some? ==> ParseIpv4(dotted.value).Some?
    {
      GroupValues(right)
      + match dotted
        case None => []
        case Some(quad) =>
          var q := ParseIpv4(quad).value;
          [q.a * 256 + q.b, q.c * 256 + q.d]
    }

    /** The eight groups the text stands for. */
    function Groups(): (g: seq<nat>)
      requires Valid()
      ensures |g| == 8
    {
      GroupValues(left) + ZeroValues(8 - |left| - |RightGroups()|) + RightGroups()
    }
  }

  /** The 128-bit number of a list of groups, first group highest. */
  function Number(groups: seq<nat>): nat {
    if groups == [] then 0 else Number(groups[..|groups| - 1]) * 0x1_0000 + groups[|groups| - 1]
  }

  // ---------- lower case ----------

  lemma {:induction false} LowerGroup(t: string)
    requires forall i :: 0 <= i < |t| ==> IsAnyHexDigit(t[i])
    ensures forall i :: 0 <= i < |t| ==> IsHexDigit(Lower(t)[i])
    ensures HexValue(Lower(t)) == GroupValue(t)
  {
    if t != "" {
      LowerGroup(t[..|t| - 1]);
      assert Lower(t)[..|t| - 1] == Lower(t[..|t| - 1]);
    }
  }

  function LowerAll(parts: seq<string>): (r: seq<string>)
    ensures |r| == |parts| && forall i :: 0 <= i < |parts| ==> r[i] == Lower(parts[i])
  {
    seq(|parts|, i requires 0 <= i < |parts| => Lower(parts[i]))
  }

  lemma LowerAppend(s: string, t: string)
    ensures Lower(s + t) == Lower(s) + Lower(t)
  {
  }

  lemma {:induction false} LowerJoin(parts: seq<string>)
    requires parts != []
    ensures Lower(Join(parts, ':')) == Join(LowerAll(parts), ':')
  {
    if |parts| > 1 {
      LowerJoin(parts[1..]);
      assert LowerAll(parts)[1..] == LowerAll(parts[1..]);
      LowerAppend(parts[0] + ":", Join(parts[1..], ':'));
      LowerAppend(parts[0], ":");
      assert Lower(":") == ":";
    }
  }

  lemma {:induction false} LowerLead(parts: seq<string>)
    ensures Lower(Lead(parts)) == Lead(LowerAll(parts))
  {
    if parts != [] {
      var n := |parts| - 1;
      LowerLead(parts[..n]);
      assert LowerAll(parts)[..n] == LowerAll(parts[..n]);
      LowerAppend(Lead(parts[..n]) + parts[n], ":");
      LowerAppend(Lead(parts[..n]), parts[n]);
      assert Lower(":") == ":";
    }
  }

  // ---------- hexadecimal ----------

  lemma {:induction false} HexOfPrint(n: nat)
    ensures HexValue(PrintHex(n)) == n
  {
    if n >= 16 {
      HexOfPrint(n / 16);
      assert PrintHex(n)[..|PrintHex(n)| - 1] == PrintHex(n / 16);
    } else {
      assert PrintHex(n)[..0] == "";
    }
  }

  lemma PrintHexIsGroup(n: nat)
    requires n < 0x1_0000
    ensures IsHexGroup(PrintHex(n)) && HexValue(PrintHex(n)) == n
  {
    HexOfPrint(n);
    assert |PrintHex(n)| <= 4 by {
      assert n / 16 / 16 / 16 < 16;
      assert |PrintHex(n / 16 / 16 / 16)| == 1;
      assert |PrintHex(n / 16 / 16)| <= 2;
      assert |PrintHex(n / 16)| <= 3;
    }
  }

  // ---------- splitting the normalised text ----------

  ghost predicate HexGroups(parts: seq<string>) {
    forall p :: p in parts ==> IsHexGroup(p)
  }

  lemma HexGroupHasNoSeparator(t: string)
    requires IsHexGroup(t)
    ensures ':' !in t && '.' !in t && t != ""
  {
    forall c | c in t
      ensures IsHexDigit(c)
    {
    }
  }

  ghost predicate NoDouble(s: string) {
    forall i :: 0 <= i < |s| - 1 ==> !(s[i] == ':' && s[i + 1] == ':')
  }

  lemma {:induction false} SplitDoubleWithout(s: string)
    requires NoDouble(s)
    ensures SplitDouble(s) == [s]
  {
    if |s| >= 2 {
      assert !(s[0] == ':' && s[0 + 1] == ':');
      assert NoDouble(s[1..]) by {
        forall i | 0 <= i < |s[1..]| - 1
          ensures !(s[1..][i] == ':' && s[1..][i + 1] == ':')
        {
          assert !(s[i + 1] == ':' && s[i + 1 + 1] == ':');
        }
      }
      SplitDoubleWithout(s[1..]);
      assert s == [s[0]] + s[1..];
    }
  }

  lemma {:induction false} SplitDoubleOnce(a: string, b: string)
    requires NoDouble(a) && NoDouble(b)
    requires a != "" ==> a[|a| - 1] != ':'
    ensures SplitDouble(a + "::" + b) == [a, b]
  {
    var s := a + "::" + b;
    if a == "" {
      assert s[2..] == b;
      SplitDoubleWithout(b);
    } else {
      assert s[1..] == a[1..] + "::" + b;
      assert NoDouble(a[1..]) by {
        forall i | 0 <= i < |a[1..]| - 1
          ensures !(a[1..][i] == ':' && a[1..][i + 1] == ':')
        {
          assert !(a[i + 1] == ':' && a[i + 1 + 1] == ':');
        }
      }
      assert |a| >= 2 ==> !(a[0] == ':' && a[0 + 1] == ':');
      SplitDoubleOnce(a[1..], b);
      assert a == [a[0]] + a[1..];
    }
  }

  lemma {:induction false} NonEmptyKeeps(parts: seq<string>)
    requires forall p :: p in parts ==> p != ""
    ensures NonEmpty(parts) == parts
  {
    if parts != [] {
      assert parts[0] in parts && parts[0] != "";
      forall p | p in parts[1..]
        ensures p != ""
      {
        assert p in parts;
      }
      NonEmptyKeeps(parts[1..]);
      assert parts == [parts[0]] + parts[1..];
    }
  }

  // ---------- the value ----------

  function HexValues(parts: seq<string>): (g: seq<nat>)
    requires HexGroups(parts)
    ensures |g| == |parts|
  {
    seq(|parts|, i requires 0 <= i < |parts| => assert parts[i] in parts && IsHexGroup(parts[i]); HexValue(parts[i]))
  }

  lemma {:induction false} CombineIsNumber(parts: seq<string>)
    requires HexGroups(parts)
    ensures Combine(parts) == Number(HexValues(parts))
  {
    if parts != [] {
      var n := |parts| - 1;
      assert parts[n] in parts;
      CombineIsNumber(parts[..n]);
      assert HexValues(parts)[..n] == HexValues(parts[..n]);
    }
  }

  lemma ZeroGroupsAreZero(n: nat)
    ensures HexGroups(ZeroGroups(n)) && HexValues(ZeroGroups(n)) == ZeroValues(n)
  {
    assert IsHexGroup("0") && "0"[..0] == "" && HexValue("0") == 0;
    forall p | p in ZeroGroups(n)
      ensures IsHexGroup(p)
    {
    }
  }

  lemma HexValuesConcat(a: seq<string>, b: seq<string>)
    requires HexGroups(a) && HexGroups(b)
    ensures HexGroups(a + b) && HexValues(a + b) == HexValues(a) + HexValues(b)
  {
  }

  lemma HexNumber(groups: seq<string>)
    requires HexGroups(groups)
    ensures NumberOfGroups(groups) == Some(Combine(groups))
  {
  }

  // ---------- the dotted tail ----------

  lemma {:induction false} AfterLastColonOf(front: string, tail: string)
    requires ':' !in tail && (front == "" || front[|front| - 1] == ':')
    ensures AfterLastColon(front + tail) == tail
  {
    if tail == "" {
      assert front + tail == front;
    } else {
      var n := |tail| - 1;
      assert (front + tail)[..|front + tail| - 1] == front + tail[..n];
      AfterLastColonOf(front, tail[..n]);
      assert tail == tail[..n] + [tail[n]];
    }
  }

  lemma QuadHasNoColon(s: string)
    requires IsQuadText(s)
    ensures ':' !in s && '.' in s && s != ""
  {
    var p := Split(s, '.');
    JoinSplit(s, '.');
    assert p == [p[0], p[1], p[2], p[3]];
    JoinOfFour(p[0], p[1], p[2], p[3]);
    forall t | t in p
      ensures ':' !in t
    {
    }
  }

  /** Four decimal numbers below 256, without leading zeros. */
  predicate WritesQuad(t: string, q: Quad) {
    && q.a < 256 && q.b < 256 && q.c < 256 && q.d < 256
    && t == Print(q.a) + "." + Print(q.b) + "." + Print(q.c) + "." + Print(q.d)
  }

  predicate HasPaddedOctet(t: string) {
    exists i :: 0 <= i < |Split(t, '.')| && !IsCanonical(Split(t, '.')[i])
  }

  lemma OctetIsShort(n: nat)
    requires n < 256
    ensures IsOctetText(Print(n)) && Value(Print(n)) == n && IsCanonical(Print(n))
  {
    ValueOfPrint(n);
    PrintIsCanonical(n);
    assert n / 10 / 10 < 10;
    assert |Print(n / 10 / 10)| == 1;
  }

  /** Such a quad is read as the numbers it writes. */
  lemma WrittenQuadParses(t: string, q: Quad)
    requires WritesQuad(t, q)
    ensures ParseIpv4(t) == Some(q) && !HasPaddedOctet(t)
  {
    OctetIsShort(q.a);
    OctetIsShort(q.b);
    OctetIsShort(q.c);
    OctetIsShort(q.d);
    var p := [Print(q.a), Print(q.b), Print(q.c), Print(q.d)];
    JoinOfFour(p[0], p[1], p[2], p[3]);
    forall part | part in p
      ensures '.' !in part
    {
    }
    SplitJoin(p, '.');
  }

  /** A quad that is read is one of these exactly when no octet of it is padded with zeros. */
  lemma QuadIsWritten(t: string)
    requires ParseIpv4(t).Some?
    ensures WritesQuad(t, ParseIpv4(t).value) <==> !HasPaddedOctet(t)
  {
    var p, q := Split(t, '.'), ParseIpv4(t).value;
    if WritesQuad(t, q) {
      WrittenQuadParses(t, q);
    }
    if !HasPaddedOctet(t) {
      forall i | 0 <= i < 4
        ensures Print(Value(p[i])) == p[i]
      {
        PrintOfValue(p[i]);
      }
      JoinSplit(t, '.');
      assert p == [p[0], p[1], p[2], p[3]];
      JoinOfFour(p[0], p[1], p[2], p[3]);
    }
  }

  lemma JoinOfFour(a: string, b: string, c: string, d: string)
    ensures Join([a, b, c, d], '.') == a + "." + b + "." + c + "." + d
  {
    assert [a, b, c, d][1..] == [b, c, d] && [b, c, d][1..] == [c, d] && [c, d][1..] == [d];
    assert Join([d], '.') == d;
    assert Join([c, d], '.') == c + ['.'] + d;
    assert Join([b, c, d], '.') == b + ['.'] + (c + ['.'] + d);
  }

  lemma {:induction false} JoinLead(parts: seq<string>, last: string)
    ensures JoinGroups(parts + [last]) == Lead(parts) + last
  {
    if parts == [] {
      assert parts + [last] == [last];
    } else {
      LeadFirst(parts);
      var all := parts + [last];
      assert all[1..] == parts[1..] + [last];
      JoinLead(parts[1..], last);
      assert JoinGroups(all) == parts[0] + [':'] + JoinGroups(all[1..]);
    }
  }

  lemma {:induction false} LeadFirst(parts: seq<string>)
    requires parts != []
    ensures Lead(parts) == parts[0] + ":" + Lead(parts[1..])
  {
    var n := |parts| - 1;
    if n > 0 {
      LeadFirst(parts[..n]);
      assert parts[..n][1..] == parts[1..][..n - 1];
    }
  }

  // ---------- characters ----------

  predicate IsAddressChar(c: char) {
    IsAnyHexDigit(c) || c == ':' || c == '.'
  }

  ghost predicate AddressChars(s: string) {
    forall i :: 0 <= i < |s| ==> IsAddressChar(s[i])
  }

  lemma {:induction false} JoinedChars(parts: seq<string>)
    requires forall p :: p in parts ==> IsGroupText(p)
    ensures AddressChars(JoinGroups(parts)) && '.' !in JoinGroups(parts)
    ensures AddressChars(Lead(parts))
  {
    if parts != [] {
      assert parts[0] in parts && IsGroupText(parts[0]);
      JoinedChars(parts[1..]);
      LeadFirst(parts);
      assert AddressChars(parts[0]) && '.' !in parts[0];
      if |parts| > 1 {
        assert JoinGroups(parts) == parts[0] + ":" + JoinGroups(parts[1..]);
      }
    }
  }

  lemma QuadChars(s: string)
    requires IsQuadText(s)
    ensures AddressChars(s) && Lower(s) == s
  {
    var p := Split(s, '.');
    JoinSplit(s, '.');
    assert p == [p[0], p[1], p[2], p[3]];
    JoinOfFour(p[0], p[1], p[2], p[3]);
    QuadCharsOf(p[0], p[1], p[2], p[3]);
  }

  lemma QuadCharsOf(a: string, b: string, c: string, d: string)
    requires AllDigits(a) && AllDigits(b) && AllDigits(c) && AllDigits(d)
    ensures var s := a + "." + b + "." + c + "." + d;
            AddressChars(s) && Lower(s) == s
  {
    var s := a + "." + b + "." + c + "." + d;
    forall i | 0 <= i < |s|
      ensures IsDigit(s[i]) || s[i] == '.'
    {
    }
  }

  lemma TextChars(sp: Spelling)
    requires sp.Valid()
    ensures AddressChars(sp.Text()) && ':' in sp.Text()
  {
    JoinedChars(sp.left);
    JoinedChars(sp.right);
    hide JoinGroups, IsGroupText, IsAddressChar;
    if sp.dotted.Some? {
      QuadChars(sp.dotted.value);
    }
    if sp.compressed {
      assert sp.Text()[|JoinGroups(sp.left)|] == ':';
    } else {
      ColonInside(sp.right);
    }
    assert AddressChars("::") by {
      ColonsAreFine();
    }
  }

  lemma ColonsAreFine()
    ensures AddressChars("::")
  {
  }

  lemma ColonInside(parts: seq<string>)
    requires |parts| >= 2
    ensures ':' in JoinGroups(parts) && ':' in Lead(parts)
  {
    assert JoinGroups(parts) == parts[0] + ":" + Join(parts[1..], ':');
    assert JoinGroups(parts)[|parts[0]|] == ':';
    LeadFirst(parts);
    assert Lead(parts)[|parts[0]|] == ':';
  }

  // ---------- tails and lower-cased pieces ----------

  lemma LowerGroups(parts: seq<string>)
    requires forall p :: p in parts ==> IsGroupText(p)
    ensures HexGroups(LowerAll(parts)) && HexValues(LowerAll(parts)) == GroupValues(parts)
  {
    forall i | 0 <= i < |parts|
      ensures IsHexGroup(LowerAll(parts)[i]) && HexValue(LowerAll(parts)[i]) == GroupValue(parts[i])
    {
      assert parts[i] in parts && IsGroupText(parts[i]);
      LowerGroup(parts[i]);
    }
  }

  lemma {:induction false} NoDotAfterColon(s: string)
    requires '.' !in s
    ensures '.' !in AfterLastColon(s)
  {
    if s != "" && s[|s| - 1] != ':' {
      NoDotAfterColon(s[..|s| - 1]);
    }
  }

  /** Lower-casing a form lower-cases its pieces. */
  lemma LoweredText(sp: Spelling)
    requires sp.Valid()
    ensures Lower(sp.Text())
         == (if sp.compressed then JoinGroups(LowerAll(sp.left)) + "::" else "")
            + match sp.dotted
              case None => JoinGroups(LowerAll(sp.right))
              case Some(quad) => Lead(LowerAll(sp.right)) + quad
  {
    hide JoinGroups, Lead, IsGroupText, GroupValues, ParseIpv4;
    var front := if sp.compressed then JoinGroups(sp.left) + "::" else "";
    var back := match sp.dotted case None => JoinGroups(sp.right) case Some(quad) => Lead(sp.right) + quad;
    LowerAppend(front, back);
    LowerJoined(sp.left);
    LowerJoined(sp.right);
    LowerAppend(JoinGroups(sp.left), "::");
    LowerColons();
    LowerLead(sp.right);
    if sp.dotted.Some? {
      LowerAppend(Lead(sp.right), sp.dotted.value);
      QuadOfValid(sp.dotted.value);
      QuadChars(sp.dotted.value);
    }
  }

  lemma QuadOfValid(s: string)
    requires ParseIpv4(s).Some?
    ensures IsQuadText(s)
  {
  }

  lemma LowerColons()
    ensures Lower("::") == "::" && Lower("") == ""
  {
  }

  lemma UndottedTail(s: string)
    requires '.' !in s && ':' in s
    ensures ParseIpv6(s) == ParseGroups(s)
  {
    NoDotAfterColon(s);
    if IsQuadText(AfterLastColon(s)) {
      QuadHasNoColon(AfterLastColon(s));
    }
    hide IsQuadText, AfterLastColon, ParseGroups;
  }

  lemma DottedTail(front: string, quad: string)
    requires front != "" && front[|front| - 1] == ':' && ParseIpv4(quad).Some?
    ensures var q := ParseIpv4(quad).value;
            ParseIpv6(front + quad) == ParseGroups(front + PrintHex(q.a * 256 + q.b) + ":" + PrintHex(q.c * 256 + q.d))
  {
    QuadOfValid(quad);
    QuadHasNoColon(quad);
    hide IsQuadText, ParseGroups, ParseIpv4, AfterLastColon;
    AfterLastColonOf(front, quad);
    assert (front + quad)[|front| - 1] == ':';
    assert (front + quad)[..|front|] == front;
  }

  lemma {:induction false} HexHasNoDot(parts: seq<string>)
    requires HexGroups(parts)
    ensures '.' !in JoinGroups(parts)
  {
    if parts != [] {
      assert parts[0] in parts;
      HexGroupHasNoSeparator(parts[0]);
      HexHasNoDot(parts[1..]);
      assert |parts| > 1 ==> JoinGroups(parts) == parts[0] + ":" + JoinGroups(parts[1..]);
    }
  }

  lemma AppendTwo(front: string, parts: seq<string>, h: string, l: string)
    ensures front + Lead(parts) + h + ":" + l == front + JoinGroups(parts + [h, l])
  {
    hide JoinGroups;
    var most := parts + [h];
    assert most[..|most| - 1] == parts;
    assert Lead(most) == Lead(parts) + h + ":";
    JoinLead(most, l);
    assert most + [l] == parts + [h, l];
  }

  lemma TwoMoreValues(parts: seq<string>, h: string, l: string)
    requires HexGroups(parts) && IsHexGroup(h) && IsHexGroup(l)
    ensures HexGroups(parts + [h, l]) && HexValues(parts + [h, l]) == HexValues(parts) + [HexValue(h), HexValue(l)]
  {
    assert HexGroups([h, l]) && HexValues([h, l]) == [HexValue(h), HexValue(l)];
    HexValuesConcat(parts, [h, l]);
  }

  lemma FrontEnds(start: string, parts: seq<string>, some: bool)
    requires some ==> start != "" || parts != []
    requires start != "" ==> start[|start| - 1] == ':'
    ensures some ==> start + Lead(parts) != "" && (start + Lead(parts))[|start + Lead(parts)| - 1] == ':'
  {
    if parts == [] {
      assert start + Lead(parts) == start;
    }
  }

  // ---------- groups as addresses ----------

  lemma FormIsNotIpv4(s: string)
    requires ':' in s
    ensures ParseIpv4(s) == None
  {
    if IsQuadText(s) {
      QuadHasNoColon(s);
    }
  }

  lemma NothingStripped(s: string)
    requires AddressChars(s)
    ensures StripBrackets(s) == s && StripBrackets("[" + s + "]") == s
  {
    assert ("[" + s + "]")[1..] == s + "]";
    assert (s + "]")[..|s|] == s;
  }

  ghost predicate IsAddress(groups: seq<nat>) {
    |groups| == 8 && forall i :: 0 <= i < 8 ==> groups[i] < 0x1_0000
  }

  function Power16(n: nat): (p: nat)
    ensures p >= 1
  {
    if n == 0 then 1 else Power16(n - 1) * 0x1_0000
  }

  lemma {:induction false} NumberBelow(groups: seq<nat>)
    requires forall i :: 0 <= i < |groups| ==> groups[i] < 0x1_0000
    ensures Number(groups) < Power16(|groups|)
  {
    if groups != [] {
      NumberBelow(groups[..|groups| - 1]);
    }
  }

  lemma {:induction false} NumberSplit(a: seq<nat>, b: seq<nat>)
    ensures Number(a + b) == Number(a) * Power16(|b|) + Number(b)
  {
    if b == [] {
      assert a + b == a;
    } else {
      var n := |b| - 1;
      assert (a + b)[..|a + b| - 1] == a + b[..n];
      NumberSplit(a, b[..n]);
      ShiftGroup(Number(a), Power16(n), Number(b[..n]), b[n]);
    }
  }

  lemma ShiftGroup(x: nat, p: nat, y: nat, d: nat)
    ensures (x * p + y) * 0x1_0000 + d == x * (p * 0x1_0000) + (y * 0x1_0000 + d)
  {
  }

  /** The leading groups are the quotient by the weight of the others. */
  lemma LeadingGroups(groups: seq<nat>, k: nat)
    requires k <= |groups| && forall i :: 0 <= i < |groups| ==> groups[i] < 0x1_0000
    ensures Number(groups) / Power16(|groups| - k) == Number(groups[..k])
  {
    assert groups == groups[..k] + groups[k..];
    NumberSplit(groups[..k], groups[k..]);
    NumberBelow(groups[k..]);
    QuotientUnique(Number(groups), Power16(|groups| - k), Number(groups[..k]), Number(groups[k..]));
  }

  lemma Weights()
    ensures Power16(6) == TWO_96 && Power16(7) * 0x2000 == TWO_125
  {
    assert Power16(1) == 0x1_0000;
    assert Power16(2) == 0x1_0000_0000;
    assert Power16(3) == 0x1_0000_0000_0000;
    assert Power16(4) == 0x1_0000_0000_0000_0000;
    assert Power16(5) == 0x1_0000_0000_0000_0000_0000;
  }

  /** Public means inside 2000::/3 and outside 2001:db8::/32. */
  lemma PublicRange(groups: seq<nat>)
    requires IsAddress(groups)
    ensures IsPublicIpv6(Number(groups)) <==>
              0x2000 <= groups[0] < 0x4000 && !(groups[0] == 0x2001 && groups[1] == 0xdb8)
  {
    Weights();
    LeadingGroups(groups, 1);
    LeadingGroups(groups, 2);
    DivideTwice(Number(groups), Power16(7), 0x2000);
    FirstTwo(groups);
    hide Number, Power16;
  }

  lemma FirstTwo(groups: seq<nat>)
    requires |groups| >= 2
    ensures Number(groups[..1]) == groups[0] && Number(groups[..2]) == groups[0] * 0x1_0000 + groups[1]
  {
    assert groups[..1] == [groups[0]] && groups[..2] == [groups[0], groups[1]];
    assert [groups[0], groups[1]][..1] == [groups[0]] && [groups[0]][..0] == [];
  }

  lemma {:induction false} GroupValueBound(t: string)
    requires forall i :: 0 <= i < |t| ==> IsAnyHexDigit(t[i])
    ensures |t| == 1 ==> GroupValue(t) < 16
    ensures |t| <= 2 ==> GroupValue(t) < 0x100
    ensures |t| <= 3 ==> GroupValue(t) < 0x1000
    ensures |t| <= 4 ==> GroupValue(t) < 0x1_0000
  {
    if t != "" {
      GroupValueBound(t[..|t| - 1]);
    }
  }

  lemma LowerJoined(parts: seq<string>)
    ensures Lower(JoinGroups(parts)) == JoinGroups(LowerAll(parts))
  {
    if parts != [] {
      LowerJoin(parts);
    }
  }

  /** Four texts of one to three digits, each a number below 256, between points. */
  predicate WritesOctets(s: string, a: string, b: string, c: string, d: string, q: Quad) {
    && s == a + "." + b + "." + c + "." + d
    && IsOctetOf(a, q.a) && IsOctetOf(b, q.b) && IsOctetOf(c, q.c) && IsOctetOf(d, q.d)
  }

  predicate IsOctetOf(t: string, n: nat) {
    1 <= |t| <= 3 && AllDigits(t) && Value(t) == n < 256
  }

  /** Exactly which texts are dotted quads, and of which numbers. */
  lemma QuadParsedExactly(s: string, q: Quad)
    ensures ParseIpv4(s) == Some(q) <==> exists a, b, c, d :: WritesOctets(s, a, b, c, d, q)
  {
    if ParseIpv4(s) == Some(q) {
      var p := Split(s, '.');
      JoinSplit(s, '.');
      assert p == [p[0], p[1], p[2], p[3]];
      JoinOfFour(p[0], p[1], p[2], p[3]);
      assert WritesOctets(s, p[0], p[1], p[2], p[3], q);
    }
    forall a, b, c, d | WritesOctets(s, a, b, c, d, q)
      ensures ParseIpv4(s) == Some(q)
    {
      OctetsParse(s, a, b, c, d, q);
    }
  }

  lemma OctetsParse(s: string, a: string, b: string, c: string, d: string, q: Quad)
    requires WritesOctets(s, a, b, c, d, q)
    ensures ParseIpv4(s) == Some(q)
  {
    JoinOfFour(a, b, c, d);
    var p := [a, b, c, d];
    forall part | part in p
      ensures '.' !in part
    {
    }
    SplitJoin(p, '.');
  }

  /** Four decimal octets, each of one to three digits, are classified by the number they write. */
  lemma QuadIsClassified(a: string, b: string, c: string, d: string)
    requires IsOctetText(a) && IsOctetText(b) && IsOctetText(c) && IsOctetText(d)
    requires Value(a) < 256 && Value(b) < 256 && Value(c) < 256 && Value(d) < 256
    ensures var s := Join([a, b, c, d], '.');
            var scope := if IsPublicIpv4(Quad(Value(a), Value(b), Value(c), Value(d))) then Public else NonPublic;
            Classify(s) == Some(scope) && Classify("[" + s + "]") == Some(scope)
  {
    var parts := [a, b, c, d];
    var s := Join(parts, '.');
    forall p | p in parts
      ensures '.' !in p
    {
    }
    SplitJoin(parts, '.');
    assert IsQuadText(s) && ParseIpv4(s) == Some(Quad(Value(a), Value(b), Value(c), Value(d)));
    QuadChars(s);
    NothingStripped(s);
    hide ParseIpv4, ParseIpv6, IsPublicIpv4, StripBrackets, Lower, Join, Split;
  }
}
