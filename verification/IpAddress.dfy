/** Classifying the text of an IP address. */
module IpAddress {
  import opened Wrappers
  import opened Text

  datatype Scope = Public | NonPublic

  // ---------- normalising ----------

  /** toLowerCase on ASCII letters. */
  function LowerChar(c: char): char {
    if 'A' <= c <= 'Z' then (c as int + 32) as char else c
  }

  function Lower(s: string): (r: string)
    ensures |r| == |s| && forall i :: 0 <= i < |s| ==> r[i] == LowerChar(s[i])
  {
    seq(|s|, i requires 0 <= i < |s| => LowerChar(s[i]))
  }

  /** One opening bracket at the start and one closing bracket at the end are removed. */
  function StripBrackets(s: string): string {
    var t := if s != "" && s[0] == '[' then s[1..] else s;
    if t != "" && t[|t| - 1] == ']' then t[..|t| - 1] else t
  }

  // ---------- IPv4 ----------

  predicate IsOctetText(t: string) {
    1 <= |t| <= 3 && AllDigits(t)
  }

  predicate IsQuadText(s: string) {
    var parts := Split(s, '.');
    |parts| == 4 && IsOctetText(parts[0]) && IsOctetText(parts[1]) && IsOctetText(parts[2]) && IsOctetText(parts[3])
  }

  datatype Quad = Quad(a: nat, b: nat, c: nat, d: nat)

  function ParseIpv4(s: string): (q: Option<Quad>)
    ensures q.Some? ==> q.value.a < 256 && q.value.b < 256 && q.value.c < 256 && q.value.d < 256
  {
    if !IsQuadText(s) then None
    else
      var p := Split(s, '.');
      var q := Quad(Value(p[0]), Value(p[1]), Value(p[2]), Value(p[3]));
      if q.a > 255 || q.b > 255 || q.c > 255 || q.d > 255 then None else Some(q)
  }

  predicate IsPublicIpv4(q: Quad) {
    !(q.a == 0
      || q.a == 10
      || q.a == 127
      || (q.a == 100 && 64 <= q.b <= 127)
      || (q.a == 169 && q.b == 254)
      || (q.a == 172 && 16 <= q.b <= 31)
      || (q.a == 192 && q.b == 0)
      || (q.a == 192 && q.b == 168)
      || (q.a == 192 && q.b == 88 && q.c == 99)
      || (q.a == 198 && (q.b == 18 || q.b == 19))
      || (q.a == 198 && q.b == 51 && q.c == 100)
      || (q.a == 203 && q.b == 0 && q.c == 113)
      || q.a >= 224)
  }

  // ---------- IPv6 ----------

  predicate IsHexDigit(c: char) {
    '0' <= c <= '9' || 'a' <= c <= 'f'
  }

  function HexDigitValue(c: char): (v: nat)
    requires IsHexDigit(c)
    ensures v < 16
  {
    if '0' <= c <= '9' then c as int - '0' as int else c as int - 'a' as int + 10
  }

  predicate IsHexGroup(t: string) {
    1 <= |t| <= 4 && forall i :: 0 <= i < |t| ==> IsHexDigit(t[i])
  }

  function HexValue(t: string): nat
    requires forall i :: 0 <= i < |t| ==> IsHexDigit(t[i])
  {
    if t == "" then 0 else HexValue(t[..|t| - 1]) * 16 + HexDigitValue(t[|t| - 1])
  }

  function HexDigit(v: nat): (c: char)
    requires v < 16
    ensures IsHexDigit(c) && HexDigitValue(c) == v
  {
    if v < 10 then ('0' as int + v) as char else ('a' as int + v - 10) as char
  }

  /** toString(16). */
  function PrintHex(n: nat): (t: string)
    ensures t != "" && forall i :: 0 <= i < |t| ==> IsHexDigit(t[i])
  {
    if n < 16 then [HexDigit(n)] else PrintHex(n / 16) + [HexDigit(n % 16)]
  }

  /** The text after the last colon. */
  function AfterLastColon(s: string): string {
    if s == "" || s[|s| - 1] == ':' then "" else AfterLastColon(s[..|s| - 1]) + [s[|s| - 1]]
  }

  lemma {:induction false} AfterLastColonLength(s: string)
    ensures |AfterLastColon(s)| <= |s|
  {
    if s != "" && s[|s| - 1] != ':' {
      AfterLastColonLength(s[..|s| - 1]);
    }
  }

  /** split("::"). */
  function SplitDouble(s: string): (parts: seq<string>)
    ensures |parts| >= 1
  {
    if |s| < 2 then [s]
    else if s[0] == ':' && s[1] == ':' then [""] + SplitDouble(s[2..])
    else
      var rest := SplitDouble(s[1..]);
      [[s[0]] + rest[0]] + rest[1..]
  }

  function NonEmpty(parts: seq<string>): (r: seq<string>)
    ensures |r| <= |parts|
  {
    if parts == [] then []
    else (if parts[0] == "" then [] else [parts[0]]) + NonEmpty(parts[1..])
  }

  function Fields(half: string): seq<string> {
    NonEmpty(Split(half, ':'))
  }

  /** The reduction that shifts the address left by 16 bits for each group. */
  function Combine(groups: seq<string>): nat
    requires forall g :: g in groups ==> IsHexGroup(g)
  {
    if groups == [] then 0
    else
      var n := |groups| - 1;
      assert groups[n] in groups && IsHexGroup(groups[n]);
      Combine(groups[..n]) * 0x1_0000 + HexValue(groups[n])
  }

  function ZeroGroups(n: nat): (z: seq<string>)
    ensures |z| == n && forall i :: 0 <= i < n ==> z[i] == "0"
  {
    seq(n, i => "0")
  }

  function NumberOfGroups(groups: seq<string>): Option<nat> {
    if exists g :: g in groups && !IsHexGroup(g) then None else Some(Combine(groups))
  }

  function ParseGroups(normalized: string): Option<nat> {
    var halves := SplitDouble(normalized);
    if |halves| > 2 then None
    else
      var left := Fields(halves[0]);
      var right := if |halves| == 2 then Fields(halves[1]) else [];
      var missing := 8 - |left| - |right|;
      if (|halves| == 1 && missing != 0) || missing < 0 then None
      else
        NumberOfGroups(left + ZeroGroups(missing) + right)
  }

  function ParseIpv6(s: string): Option<nat> {
    if ':' !in s then None
    else
      var tail := AfterLastColon(s);
      if !IsQuadText(tail) then ParseGroups(s)
      else
        match ParseIpv4(tail)
        case None => None
        case Some(q) =>
          AfterLastColonLength(s);
          ParseGroups(s[..|s| - |tail|] + PrintHex(q.a * 256 + q.b) + ":" + PrintHex(q.c * 256 + q.d))
  }

  const TWO_96: nat := 0x1_0000_0000_0000_0000_0000_0000
  const TWO_125: nat := 0x2000_0000_0000_0000_0000_0000_0000_0000

  predicate IsPublicIpv6(address: nat) {
    address / TWO_125 == 1 && address / TWO_96 != 0x2001_0db8
  }

  function Classify(value: string): Option<Scope> {
    var normalized := Lower(StripBrackets(value));
    match ParseIpv4(normalized)
    case Some(q) => Some(if IsPublicIpv4(q) then Public else NonPublic)
    case None =>
      match ParseIpv6(normalized)
      case None => None
      case Some(address) => Some(if IsPublicIpv6(address) then Public else NonPublic)
  }

  // ---------- the IPv4 ranges ----------

  /** The address as one 32-bit number. */
  function Ipv4Number(q: Quad): nat {
    q.a * 0x100_0000 + q.b * 0x1_0000 + q.c * 0x100 + q.d
  }

  ghost predicate IsOctets(q: Quad) {
    q.a < 256 && q.b < 256 && q.c < 256 && q.d < 256
  }

  /** q is one of the `size` consecutive addresses from a.b.c.0 on. */
  predicate InBlock(q: Quad, a: nat, b: nat, c: nat, size: nat) {
    Ipv4Number(Quad(a, b, c, 0)) <= Ipv4Number(q) < Ipv4Number(Quad(a, b, c, 0)) + size
  }

  lemma FirstOctet(q: Quad, a: nat, k: nat)
    requires IsOctets(q)
    ensures InBlock(q, a, 0, 0, k * 0x100_0000) <==> a <= q.a < a + k
  {
  }

  lemma SecondOctet(q: Quad, a: nat, b: nat, k: nat)
    requires IsOctets(q) && b + k <= 256
    ensures InBlock(q, a, b, 0, k * 0x1_0000) <==> q.a == a && b <= q.b < b + k
  {
  }

  lemma ThirdOctet(q: Quad, a: nat, b: nat, c: nat)
    requires IsOctets(q) && b < 256 && c < 256
    ensures InBlock(q, a, b, c, 0x100) <==> q.a == a && q.b == b && q.c == c
  {
  }

  /** The tests on the octets exclude exactly these blocks of consecutive addresses: 0/8, 10/8, 127/8, 100.64/10,
      169.254/16, 172.16/12, 192.0/16, 192.168/16, 192.88.99/24, 198.18/15, 198.51.100/24, 203.0.113/24
      and everything from 224.0.0.0 on. */
  lemma PublicIpv4Ranges(q: Quad)
    requires IsOctets(q)
    ensures !IsPublicIpv4(q) <==>
              || InBlock(q, 0, 0, 0, 0x100_0000) || InBlock(q, 10, 0, 0, 0x100_0000)
              || InBlock(q, 127, 0, 0, 0x100_0000)
              || InBlock(q, 100, 64, 0, 0x40_0000) || InBlock(q, 169, 254, 0, 0x1_0000)
              || InBlock(q, 172, 16, 0, 0x10_0000) || InBlock(q, 192, 0, 0, 0x1_0000)
              || InBlock(q, 192, 168, 0, 0x1_0000) || InBlock(q, 192, 88, 99, 0x100)
              || InBlock(q, 198, 18, 0, 0x2_0000) || InBlock(q, 198, 51, 100, 0x100)
              || InBlock(q, 203, 0, 113, 0x100) || InBlock(q, 224, 0, 0, 0x2000_0000)
  {
    hide InBlock;
    FirstOctet(q, 0, 1);
    FirstOctet(q, 10, 1);
    FirstOctet(q, 127, 1);
    SecondOctet(q, 100, 64, 64);
    SecondOctet(q, 169, 254, 1);
    SecondOctet(q, 172, 16, 16);
    SecondOctet(q, 192, 0, 1);
    SecondOctet(q, 192, 168, 1);
    ThirdOctet(q, 192, 88, 99);
    SecondOctet(q, 198, 18, 2);
    ThirdOctet(q, 198, 51, 100);
    ThirdOctet(q, 203, 0, 113);
    FirstOctet(q, 224, 32);
  }
}
