/** Exactly which texts the address parser accepts. */
module Ipv6Acceptance {
  import opened Wrappers
  import opened Text
  import opened IpAddress
  import opened Ipv6Spelling

  function Colon(present: bool): string {
    if present then ":" else ""
  }

  /** Texts between colons: none of them empty. */
  ghost predicate Pieces(parts: seq<string>) {
    forall p :: p in parts ==> p != "" && ':' !in p
  }

  /** An accepted text. It holds the groups before "::" and those after it, or all of them when there is no "::", and
      the last two groups may be dotted. A single colon may stand before the first group, directly behind "::", and
      behind the last group. */
  datatype Form = Form(lead: bool, left: seq<string>, gap: bool, after: bool, right: seq<string>, trail: bool,
                       dotted: Option<string>)
  {
    function Count(): nat {
      |left| + |right| + if dotted.Some? then 2 else 0
    }

    function Last(): seq<string> {
      right + match dotted case None => [] case Some(quad) => [quad]
    }

    ghost predicate Valid() {
      && HexGroups(left) && HexGroups(right)
      && (dotted.Some? ==> ParseIpv4(dotted.value).Some? && !trail)
      && (if gap then Count() <= 8 else Count() == 8 && left == [] && !after)
      && (gap && left == [] ==> !lead)
      && (Last() == [] ==> !trail)
    }

    function Before(): string {
      Colon(lead) + JoinGroups(left)
    }

    function Behind(): string {
      Colon(after) + JoinGroups(Last()) + Colon(trail)
    }

    function Text(): string {
      if gap then Before() + "::" + Behind() else Colon(lead) + JoinGroups(Last()) + Colon(trail)
    }

    /** The eight groups it stands for. */
    function Groups(): seq<nat>
      requires Valid()
    {
      HexValues(left) + ZeroValues(8 - Count()) + HexValues(right)
      + match dotted
        case None => []
        case Some(quad) =>
          var q := ParseIpv4(quad).value;
          [q.a * 256 + q.b, q.c * 256 + q.d]
    }
  }

  // ---------- fields between colons ----------

  lemma {:induction false} SplitAtColon(a: string, b: string)
    ensures Split(a + [':'] + b, ':') == Split(a, ':') + Split(b, ':')
  {
    var s := a + [':'] + b;
    if a == "" {
      assert s[1..] == b;
    } else {
      assert s[1..] == a[1..] + [':'] + b;
      SplitAtColon(a[1..], b);
      Regroup(a[0], Split(a[1..], ':'), Split(b, ':'));
      assert s[0] == a[0] && s != "";
    }
  }

  lemma Regroup(c: char, front: seq<string>, back: seq<string>)
    requires front != []
    ensures (front + back)[0] == front[0]
    ensures [[c] + front[0]] + (front + back)[1..] == [[c] + front[0]] + front[1..] + back
    ensures [""] + (front + back) == [""] + front + back
  {
    assert (front + back)[1..] == front[1..] + back;
  }

  lemma {:induction false} NonEmptyOfBoth(a: seq<string>, b: seq<string>)
    ensures NonEmpty(a + b) == NonEmpty(a) + NonEmpty(b)
  {
    if a == [] {
      assert a + b == b;
    } else {
      assert (a + b)[1..] == a[1..] + b;
      NonEmptyOfBoth(a[1..], b);
    }
  }

  lemma FieldsAtColon(a: string, b: string)
    ensures Fields(a + [':'] + b) == Fields(a) + Fields(b)
  {
    SplitAtColon(a, b);
    NonEmptyOfBoth(Split(a, ':'), Split(b, ':'));
  }

  lemma FieldsOfNothing()
    ensures Fields("") == []
  {
    assert Split("", ':') == [""];
    assert [""][1..] == [];
  }

  /** Colons at the ends do not count. */
  lemma FieldsIgnoreColons(lead: bool, s: string, trail: bool)
    ensures Fields(Colon(lead) + s + Colon(trail)) == Fields(s)
  {
    hide Fields;
    FieldsOfNothing();
    FieldsAtColon("", s);
    FieldsAtColon(s, "");
    FieldsAtColon("", s + ":");
    assert "" + [':'] + s == ":" + s && s + [':'] + "" == s + ":";
    assert "" + [':'] + (s + ":") == ":" + s + ":";
    assert Colon(lead) + s + Colon(trail)
        == if lead then (if trail then ":" + s + ":" else ":" + s) else (if trail then s + ":" else s);
  }

  lemma FieldsOfPieces(lead: bool, parts: seq<string>, trail: bool)
    requires Pieces(parts)
    ensures Fields(Colon(lead) + JoinGroups(parts) + Colon(trail)) == parts
  {
    FieldsIgnoreColons(lead, JoinGroups(parts), trail);
    if parts == [] {
      FieldsOfNothing();
    } else {
      SplitJoin(parts, ':');
      NonEmptyKeeps(parts);
    }
  }

  lemma HexAreFields(parts: seq<string>)
    requires HexGroups(parts)
    ensures Pieces(parts)
  {
    forall p | p in parts
      ensures p != "" && ':' !in p
    {
      HexGroupHasNoSeparator(p);
    }
  }

  /** Joined pieces have no colon at the ends and no two in a row. */
  lemma {:induction false} JoinedPieces(parts: seq<string>)
    requires Pieces(parts)
    ensures var s := JoinGroups(parts);
            && NoDouble(s)
            && (s != "" ==> s[0] != ':' && s[|s| - 1] != ':')
            && (s == "" <==> parts == [])
  {
    if parts != [] {
      assert parts[0] in parts;
      if |parts| > 1 {
        assert forall p :: p in parts[1..] ==> p in parts;
        JoinedPieces(parts[1..]);
        var rest := Join(parts[1..], ':');
        var s := Join(parts, ':');
        assert s == parts[0] + [':'] + rest;
        forall i | 0 <= i < |s| - 1
          ensures !(s[i] == ':' && s[i + 1] == ':')
        {
          if i > |parts[0]| {
            assert s[i] == rest[i - |parts[0]| - 1] && s[i + 1] == rest[i - |parts[0]|];
          }
        }
      }
    }
  }

  /** With colons at the ends there are still no two in a row, unless there is nothing between them. */
  lemma EnclosedPieces(lead: bool, parts: seq<string>, trail: bool)
    requires Pieces(parts) && (parts == [] ==> !lead || !trail)
    ensures NoDouble(Colon(lead) + JoinGroups(parts) + Colon(trail))
  {
    hide JoinGroups, Pieces;
    JoinedPieces(parts);
    var joined := JoinGroups(parts);
    var s := Colon(lead) + joined + Colon(trail);
    var k := |Colon(lead)|;
    forall i | 0 <= i < |s| - 1
      ensures !(s[i] == ':' && s[i + 1] == ':')
    {
      if k <= i < k + |joined| - 1 {
        assert s[i] == joined[i - k] && s[i + 1] == joined[i - k + 1];
      }
    }
  }

  /** Without a colon at the end and without two in a row, only the first field can be empty. */
  lemma {:induction false} NoEmptyField(s: string)
    requires s != "" && NoDouble(s) && s[|s| - 1] != ':'
    ensures forall i :: 0 < i < |Split(s, ':')| ==> Split(s, ':')[i] != ""
    ensures Split(s, ':')[0] == "" <==> s[0] == ':'
  {
    if |s| == 1 {
      assert Split(s[1..], ':') == [""];
    } else {
      assert !(s[0] == ':' && s[0 + 1] == ':');
      assert NoDouble(s[1..]) by {
        forall i | 0 <= i < |s[1..]| - 1
          ensures !(s[1..][i] == ':' && s[1..][i + 1] == ':')
        {
          assert !(s[i + 1] == ':' && s[i + 1 + 1] == ':');
        }
      }
      NoEmptyField(s[1..]);
    }
  }

  /** Without colons at the ends either, the text is its fields joined. */
  lemma FieldsOfCore(core: string)
    requires core != "" && NoDouble(core) && core[0] != ':' && core[|core| - 1] != ':'
    ensures Pieces(Fields(core)) && Fields(core) != [] && JoinGroups(Fields(core)) == core
  {
    NoEmptyField(core);
    JoinSplit(core, ':');
    NonEmptyKeeps(Split(core, ':'));
    hide Split, Join, NoDouble;
  }

  /** A text without two colons in a row is its fields joined, but for a colon at either end. */
  lemma ShapeOfHalf(s: string) returns (lead: bool, parts: seq<string>, trail: bool)
    requires NoDouble(s)
    ensures s == Colon(lead) + JoinGroups(parts) + Colon(trail)
    ensures parts == Fields(s) && Pieces(parts)
    ensures parts == [] ==> !trail
  {
    lead := s != "" && s[0] == ':';
    assert |s| >= 2 ==> !(s[0] == ':' && s[0 + 1] == ':');
    var rest := if lead then s[1..] else s;
    trail := rest != "" && rest[|rest| - 1] == ':';
    var core := if trail then rest[..|rest| - 1] else rest;
    parts := Fields(core);
    assert s == Colon(lead) + core + Colon(trail);
    hide Fields, JoinGroups, Pieces, NoDouble;
    FieldsIgnoreColons(lead, core, trail);
    if core == "" {
      FieldsOfNothing();
      NoPieces();
    } else {
      CoreOfHalf(s, lead, core, trail);
      FieldsOfCore(core);
    }
  }

  lemma NoPieces()
    ensures JoinGroups([]) == "" && Pieces([])
  {
  }

  lemma CoreOfHalf(s: string, lead: bool, core: string, trail: bool)
    requires NoDouble(s) && s == Colon(lead) + core + Colon(trail) && core != ""
    requires lead <==> s[0] == ':'
    requires trail <==> (if lead then s[1..] else s)[|s| - |Colon(lead)| - 1] == ':'
    ensures NoDouble(core) && core[0] != ':' && core[|core| - 1] != ':'
  {
    var k := |Colon(lead)|;
    forall i | 0 <= i < |core| - 1
      ensures !(core[i] == ':' && core[i + 1] == ':')
    {
      assert core[i] == s[i + k] && core[i + 1] == s[i + k + 1];
    }
    var last := k + |core| - 1;
    assert core[0] == s[k] && core[|core| - 1] == s[last];
    if lead {
      assert s[0] == ':' && s[0 + 1] == core[0];
    }
    if trail {
      assert s[last + 1] == ':';
    }
  }

  // ---------- two halves ----------

  lemma {:induction false} OneHalf(s: string)
    requires |SplitDouble(s)| == 1
    ensures SplitDouble(s) == [s] && NoDouble(s)
  {
    if |s| >= 2 {
      OneHalf(s[1..]);
      assert s == [s[0]] + s[1..];
      forall i | 0 <= i < |s| - 1
        ensures !(s[i] == ':' && s[i + 1] == ':')
      {
        assert i > 0 ==> !(s[1..][i - 1] == ':' && s[1..][i - 1 + 1] == ':');
      }
    }
  }

  lemma {:induction false} TwoHalves(s: string)
    requires |SplitDouble(s)| == 2
    ensures var a, b := SplitDouble(s)[0], SplitDouble(s)[1];
            && s == a + "::" + b && NoDouble(a) && NoDouble(b)
            && (a != "" ==> a[|a| - 1] != ':')
  {
    if s[0] == ':' && s[1] == ':' {
      OneHalf(s[2..]);
      assert s == "" + "::" + s[2..];
    } else {
      TwoHalves(s[1..]);
      var rest := SplitDouble(s[1..]);
      var a := [s[0]] + rest[0];
      assert s == [s[0]] + s[1..];
      assert s[1..] == rest[0] + "::" + rest[1];
      forall i | 0 <= i < |a| - 1
        ensures !(a[i] == ':' && a[i + 1] == ':')
      {
        assert i > 0 ==> !(rest[0][i - 1] == ':' && rest[0][i - 1 + 1] == ':');
        assert i == 0 ==> a[1] == s[1];
      }
    }
  }

  // ---------- texts without a dotted tail ----------

  lemma AllHex(parts: seq<string>)
    requires !(exists g :: g in parts && !IsHexGroup(g))
    ensures HexGroups(parts)
  {
  }

  lemma HexOfBoth(a: seq<string>, b: seq<string>)
    requires HexGroups(a + b)
    ensures HexGroups(a) && HexGroups(b)
  {
    assert forall p :: p in a ==> p in a + b;
    assert forall p :: p in b ==> p in a + b;
  }

  /** The number of groups filled up with zeros in the middle. */
  lemma FilledValue(left: seq<string>, right: seq<string>)
    requires |left| + |right| <= 8 && HexGroups(left) && HexGroups(right)
    ensures var groups := left + ZeroGroups(8 - |left| - |right|) + right;
            && HexGroups(groups)
            && Combine(groups) == Number(HexValues(left) + ZeroValues(8 - |left| - |right|) + HexValues(right))
  {
    hide Combine, Number, HexValues, ZeroGroups, IsHexGroup;
    var zeros := ZeroGroups(8 - |left| - |right|);
    ZeroGroupsAreZero(8 - |left| - |right|);
    HexValuesConcat(left, zeros);
    HexValuesConcat(left + zeros, right);
    CombineIsNumber(left + zeros + right);
  }

  /** What the parser makes of its halves. */
  lemma ParsedHalves(s: string, left: seq<string>, right: seq<string>, gap: bool)
    requires |SplitDouble(s)| == if gap then 2 else 1
    requires left == if gap then Fields(SplitDouble(s)[0]) else []
    requires right == if gap then Fields(SplitDouble(s)[1]) else Fields(SplitDouble(s)[0])
    ensures ParseGroups(s).Some? <==>
              (if gap then |left| + |right| <= 8 else |right| == 8) && HexGroups(left) && HexGroups(right)
    ensures ParseGroups(s).Some? ==>
              ParseGroups(s).value == Number(HexValues(left) + ZeroValues(8 - |left| - |right|) + HexValues(right))
  {
    hide SplitDouble, Fields, Combine, Number, HexValues, ZeroGroups, IsHexGroup, NumberOfGroups, HexGroups;
    if if gap then |left| + |right| <= 8 else |right| == 8 {
      var groups := left + ZeroGroups(8 - |left| - |right|) + right;
      assert !gap ==> right + ZeroGroups(0) + [] == groups;
      NumberOfFilled(left, right);
    }
  }

  /** Zeros in the middle do not matter to whether all groups are hexadecimal. */
  lemma NumberOfFilled(left: seq<string>, right: seq<string>)
    requires |left| + |right| <= 8
    ensures var number := NumberOfGroups(left + ZeroGroups(8 - |left| - |right|) + right);
            && (number.Some? <==> HexGroups(left) && HexGroups(right))
            && (number.Some? ==>
                  number.value == Number(HexValues(left) + ZeroValues(8 - |left| - |right|) + HexValues(right)))
  {
    hide Combine, Number, HexValues, ZeroGroups, IsHexGroup;
    var zeros := ZeroGroups(8 - |left| - |right|);
    if NumberOfGroups(left + zeros + right).Some? {
      AllHex(left + zeros + right);
      HexOfBoth(left + zeros, right);
      HexOfBoth(left, zeros);
    }
    if HexGroups(left) && HexGroups(right) {
      FilledValue(left, right);
      HexNumber(left + zeros + right);
    }
  }

  /** The parser sees exactly the groups of a form. */
  lemma FormHalves(x: Form)
    requires Pieces(x.left) && Pieces(x.Last())
    requires if x.gap then x.left == [] ==> !x.lead else x.Last() != []
    requires x.Last() == [] ==> !x.trail
    ensures x.gap ==> SplitDouble(x.Text()) == [x.Before(), x.Behind()]
                      && Fields(x.Before()) == x.left && Fields(x.Behind()) == x.Last()
    ensures !x.gap ==> SplitDouble(x.Text()) == [x.Text()] && Fields(x.Text()) == x.Last()
  {
    hide SplitDouble, Fields, JoinGroups, NoDouble, Pieces;
    if x.gap {
      EnclosedPieces(x.lead, x.left, false);
      EnclosedPieces(x.after, x.Last(), x.trail);
      FieldsOfPieces(x.lead, x.left, false);
      FieldsOfPieces(x.after, x.Last(), x.trail);
      assert x.Before() + Colon(false) == x.Before();
      JoinedPieces(x.left);
      SplitDoubleOnce(x.Before(), x.Behind());
    } else {
      EnclosedPieces(x.lead, x.Last(), x.trail);
      FieldsOfPieces(x.lead, x.Last(), x.trail);
      SplitDoubleWithout(x.Text());
    }
  }

  ghost predicate IsPlainForm(x: Form, s: string) {
    x.Valid() && x.dotted.None? && x.Text() == s
  }

  lemma PlainFormParses(x: Form, s: string)
    requires IsPlainForm(x, s)
    ensures ParseGroups(s) == Some(Number(x.Groups()))
  {
    hide ParseGroups, Number, HexValues, JoinGroups, IsHexGroup;
    HexAreFields(x.left);
    HexAreFields(x.right);
    assert x.Last() == x.right;
    FormHalves(x);
    ParsedHalves(s, x.left, x.right, x.gap);
    assert x.Groups() == HexValues(x.left) + ZeroValues(8 - |x.left| - |x.right|) + HexValues(x.right);
  }

  lemma FormWithoutGap(s: string) returns (x: Form)
    requires ParseGroups(s).Some? && |SplitDouble(s)| == 1
    ensures IsPlainForm(x, s)
  {
    hide JoinGroups, Fields, IsHexGroup, Pieces, ParseGroups;
    OneHalf(s);
    var lead, parts, trail := ShapeOfHalf(s);
    ParsedHalves(s, [], parts, false);
    x := Form(lead, [], false, false, parts, trail, None);
    assert x.Last() == parts;
  }

  lemma FormWithGap(s: string) returns (x: Form)
    requires ParseGroups(s).Some? && |SplitDouble(s)| == 2
    ensures IsPlainForm(x, s)
  {
    TwoHalves(s);
    hide *;
    var a, b := SplitDouble(s)[0], SplitDouble(s)[1];
    var lead, left, none := ShapeOfHalf(a);
    var after, right, trail := ShapeOfHalf(b);
    ParsedHalves(s, left, right, true);
    EndsInColon(a, lead, left, none);
    x := Form(lead, left, true, after, right, trail, None);
    GapForm(x, a, b);
  }

  lemma GapForm(x: Form, a: string, b: string)
    requires x.gap && x.dotted.None? && HexGroups(x.left) && HexGroups(x.right) && |x.left| + |x.right| <= 8
    requires a == Colon(x.lead) + JoinGroups(x.left) && b == Colon(x.after) + JoinGroups(x.right) + Colon(x.trail)
    requires x.left == [] ==> !x.lead
    requires x.right == [] ==> !x.trail
    ensures IsPlainForm(x, a + "::" + b)
  {
    hide HexGroups, JoinGroups;
    assert x.Last() == x.right;
  }

  lemma EndsInColon(a: string, lead: bool, left: seq<string>, trail: bool)
    requires a == Colon(lead) + JoinGroups(left) + Colon(trail)
    ensures trail || (lead && left == []) ==> a != "" && a[|a| - 1] == ':'
    ensures !trail ==> a == Colon(lead) + JoinGroups(left)
  {
  }

  lemma FormOfAccepted(s: string) returns (x: Form)
    requires ParseGroups(s).Some?
    ensures IsPlainForm(x, s)
  {
    assert |SplitDouble(s)| in {1, 2};
    hide ParseGroups, SplitDouble, IsPlainForm;
    if |SplitDouble(s)| == 1 {
      x := FormWithoutGap(s);
    } else {
      x := FormWithGap(s);
    }
  }

  /** Without a dotted tail the parser accepts a text, with a number, exactly when it has the form above with that
      number: eight groups, or at most eight around "::", with no more than one stray colon at each of the three
      places. */
  lemma PlainAcceptedExactly(s: string, n: nat)
    ensures ParseGroups(s) == Some(n) <==> exists x :: IsPlainForm(x, s) && Number(x.Groups()) == n
  {
    hide ParseGroups, Number, Form.Text, HexGroups, Form.Count;
    if ParseGroups(s) == Some(n) {
      var x := FormOfAccepted(s);
      PlainFormParses(x, s);
    }
    forall x | IsPlainForm(x, s) && Number(x.Groups()) == n
      ensures ParseGroups(s) == Some(n)
    {
      PlainFormParses(x, s);
    }
  }

  // ---------- the dotted tail ----------

  ghost predicate IsForm(x: Form, s: string) {
    x.Valid() && x.Text() == s
  }

  /** What stands before the last run of pieces. */
  function Start(x: Form): string {
    if x.gap then x.Before() + "::" + Colon(x.after) else Colon(x.lead)
  }

  lemma StartEnds(x: Form)
    ensures x.Text() == Start(x) + JoinGroups(x.Last()) + Colon(x.trail)
    ensures Start(x) != "" ==> Start(x)[|Start(x)| - 1] == ':'
    ensures x.gap ==> |Start(x)| >= 2 && Start(x)[|Start(x)| - 2] == ':'
  {
    hide JoinGroups;
    assert x.gap ==> Start(x) + JoinGroups(x.Last()) + Colon(x.trail) == x.Before() + "::" + x.Behind();
  }

  /** Fronts that end in a colon and tails without one: the text determines both. */
  lemma SameTail(f1: string, t1: string, f2: string, t2: string)
    requires f1 + t1 == f2 + t2 && ':' !in t1 && ':' !in t2
    requires (f1 == "" || f1[|f1| - 1] == ':') && (f2 == "" || f2[|f2| - 1] == ':')
    ensures t1 == t2 && f1 == f2
  {
    AfterLastColonOf(f1, t1);
    AfterLastColonOf(f2, t2);
    assert f1 == (f1 + t1)[..|f1|] && f2 == (f2 + t2)[..|f2|];
  }

  lemma LeadOfMore(parts: seq<string>, p: string)
    ensures Lead(parts + [p]) == Lead(parts) + p + ":"
  {
    assert (parts + [p])[..|parts|] == parts;
  }

  /** A front that ends in a colon, before and after the groups in it. */
  lemma FrontOf(x: Form, parts: seq<string>)
    requires x.gap || parts != []
    ensures var front := Start(x) + Lead(parts); front != "" && front[|front| - 1] == ':'
  {
    hide Start;
    StartEnds(x);
    FrontEnds(Start(x), parts, true);
  }

  /** With the two groups in place of the quad. */
  function Undotted(x: Form, h: string, l: string): Form {
    x.(right := x.right + [h, l], dotted := None)
  }

  lemma UndottedForm(x: Form, h: string, l: string)
    requires x.Valid() && x.dotted.Some? && IsHexGroup(h) && IsHexGroup(l)
    requires var q := ParseIpv4(x.dotted.value).value;
             HexValue(h) == q.a * 256 + q.b && HexValue(l) == q.c * 256 + q.d
    ensures Undotted(x, h, l).Valid() && Undotted(x, h, l).Groups() == x.Groups()
  {
    hide IsHexGroup, HexValue, ParseIpv4, HexGroups;
    TwoMoreValues(x.right, h, l);
    var y := Undotted(x, h, l);
    assert y.Last() == x.right + [h, l];
    assert y.Count() == x.Count();
  }

  lemma UndottedText(x: Form, h: string, l: string)
    requires x.Valid() && x.dotted.Some?
    ensures x.Text() == Start(x) + Lead(x.right) + x.dotted.value
    ensures Undotted(x, h, l).Text() == Start(x) + Lead(x.right) + h + ":" + l
  {
    hide JoinGroups, Lead;
    var y := Undotted(x, h, l);
    StartEnds(x);
    StartEnds(y);
    JoinLead(x.right, x.dotted.value);
    AppendTwo(Start(x), x.right, h, l);
    assert y.Last() == x.right + [h, l];
  }

  lemma DottedFormParses(x: Form, s: string)
    requires IsForm(x, s) && x.dotted.Some?
    ensures ParseIpv6(s) == Some(Number(x.Groups()))
  {
    FrontOfForm(x);
    hide *;
    var h, l := PrintedQuad(x.dotted.value);
    DottedFormReads(x, h, l);
  }

  lemma DottedFormReads(x: Form, h: string, l: string)
    requires x.Valid() && x.dotted.Some? && ParseIpv4(x.dotted.value).Some?
    requires IsHexGroup(h) && IsHexGroup(l)
    requires var q := ParseIpv4(x.dotted.value).value;
             && HexValue(h) == q.a * 256 + q.b && HexValue(l) == q.c * 256 + q.d
             && h == PrintHex(q.a * 256 + q.b) && l == PrintHex(q.c * 256 + q.d)
    ensures ParseIpv6(x.Text()) == Some(Number(x.Groups()))
  {
    hide *;
    FrontOfForm(x);
    UndottedForm(x, h, l);
    UndottedText(x, h, l);
    UndottedIsPlain(x, h, l);
    DottedTail(Start(x) + Lead(x.right), x.dotted.value);
    PlainFormParses(Undotted(x, h, l), Undotted(x, h, l).Text());
  }

  /** The two groups that the parser puts in place of a quad. */
  lemma PrintedQuad(quad: string) returns (h: string, l: string)
    requires ParseIpv4(quad).Some?
    ensures IsHexGroup(h) && IsHexGroup(l)
    ensures var q := ParseIpv4(quad).value;
            && HexValue(h) == q.a * 256 + q.b && HexValue(l) == q.c * 256 + q.d
            && h == PrintHex(q.a * 256 + q.b) && l == PrintHex(q.c * 256 + q.d)
  {
    var q := ParseIpv4(quad).value;
    h, l := PrintHex(q.a * 256 + q.b), PrintHex(q.c * 256 + q.d);
    PrintHexIsGroup(q.a * 256 + q.b);
    PrintHexIsGroup(q.c * 256 + q.d);
    hide ParseIpv4, PrintHex, HexValue, IsHexGroup;
  }

  lemma UndottedIsPlain(x: Form, h: string, l: string)
    requires Undotted(x, h, l).Valid()
    ensures IsPlainForm(Undotted(x, h, l), Undotted(x, h, l).Text())
  {
  }

  lemma FrontOfForm(x: Form)
    requires x.Valid() && x.dotted.Some?
    ensures var front := Start(x) + Lead(x.right); front != "" && front[|front| - 1] == ':'
    ensures ParseIpv4(x.dotted.value).Some?
  {
    hide Start, Lead, ParseIpv4;
    FrontOf(x, x.right);
  }

  lemma UndottedFormParses(x: Form, s: string)
    requires IsForm(x, s) && x.dotted.None?
    ensures ParseIpv6(s) == Some(Number(x.Groups()))
  {
    hide ParseIpv6, ParseGroups, Number;
    UndottedChars(x);
    UndottedTail(s);
    PlainFormParses(x, s);
  }

  lemma UndottedChars(x: Form)
    requires x.Valid() && x.dotted.None?
    ensures '.' !in x.Text() && ':' in x.Text()
  {
    HexHasNoDot(x.left);
    HexHasNoDot(x.right);
    assert x.Last() == x.right;
    hide HexGroups;
    if x.gap {
      assert x.Text()[|x.Before()|] == ':';
    } else {
      assert JoinGroups(x.right) == x.right[0] + [':'] + Join(x.right[1..], ':');
      assert x.Text()[|Colon(x.lead)| + |x.right[0]|] == ':';
    }
  }

  lemma NextTail(s: string)
    requires s != "" && s[|s| - 1] != ':'
    ensures AfterLastColon(s) == AfterLastColon(s[..|s| - 1]) + [s[|s| - 1]]
  {
  }

  lemma {:induction false} TailSplits(s: string)
    ensures var tail := AfterLastColon(s);
            && |tail| <= |s| && ':' !in tail && s[|s| - |tail|..] == tail
            && (if |tail| == |s| then ':' !in s else s[|s| - |tail| - 1] == ':')
  {
    if s != "" && s[|s| - 1] != ':' {
      var t, c := s[..|s| - 1], s[|s| - 1];
      var tail := AfterLastColon(t);
      TailSplits(t);
      hide AfterLastColon;
      assert s == t + [c] && s[|t| - |tail|..] == t[|t| - |tail|..] + [c];
      NextTail(s);
    }
  }

  /** When an undotted form ends in these two groups, they are its last groups. */
  lemma LastTwoGroups(y: Form, front: string, h: string, l: string)
    requires IsPlainForm(y, front + h + ":" + l)
    requires front != "" && front[|front| - 1] == ':' && IsHexGroup(h) && IsHexGroup(l)
    ensures var m := |y.right|;
            && m >= 2 && !y.trail && y.right[m - 2] == h && y.right[m - 1] == l
            && front == Start(y) + Lead(y.right[..m - 2])
  {
    HexGroupHasNoSeparator(h);
    HexGroupHasNoSeparator(l);
    HexAreFields(y.right);
    EndsInGroup(y, front + h + ":", l);
    hide HexGroups, Form.Text, Lead, Start, IsHexGroup;
    LastGroup(y, front + h + ":", l);
    var r := y.right[..|y.right| - 1];
    GroupBefore(y, r, front, h);
    assert r[..|r| - 1] == y.right[..|y.right| - 2];
  }

  lemma EndsInGroup(y: Form, front: string, l: string)
    requires IsPlainForm(y, front + l) && ':' !in l && l != ""
    ensures y.right != []
  {
    hide HexGroups, Form.Text, Start;
    StartEnds(y);
    assert y.Last() == y.right;
    assert (front + l)[|front + l| - 1] != ':';
    assert JoinGroups([]) == "" && Start(y) + "" + Colon(y.trail) == Start(y) + Colon(y.trail);
  }

  lemma GroupBefore(y: Form, r: seq<string>, front: string, h: string)
    requires y.Valid() && y.dotted.None? && Pieces(y.right) && y.right != [] && r == y.right[..|y.right| - 1]
    requires Start(y) + Lead(r) == front + h + ":"
    requires front != "" && front[|front| - 1] == ':' && ':' !in h && h != ""
    ensures r != [] && r[|r| - 1] == h && front == Start(y) + Lead(r[..|r| - 1])
  {
    hide HexGroups, Form.Text, Lead, Start;
    var s := front + h + ":";
    if r == [] {
      LeadOfNone();
      assert Start(y) == s;
      assert s[|s| - 2] == h[|h| - 1];
      StartEnds(y);
    } else {
      var r', p := r[..|r| - 1], r[|r| - 1];
      assert r == r' + [p];
      LeadOfMore(r', p);
      WithoutColon(Start(y) + Lead(r') + p, front + h);
      StartAndLead(y, r');
      assert p in y.right;
      SameTail(Start(y) + Lead(r'), p, front, h);
    }
  }

  lemma WithoutColon(a: string, b: string)
    requires a + ":" == b + ":"
    ensures a == b
  {
    assert a == (a + ":")[..|a|] && b == (b + ":")[..|b|];
  }

  lemma LeadOfNone()
    ensures Lead([]) == ""
  {
  }

  lemma StartAndLead(y: Form, parts: seq<string>)
    ensures var f := Start(y) + Lead(parts); f == "" || f[|f| - 1] == ':'
  {
    StartEnds(y);
    hide Start;
    if parts == [] {
      assert Start(y) + Lead(parts) == Start(y);
    }
  }

  lemma LastGroup(y: Form, front: string, l: string)
    requires IsPlainForm(y, front + l) && y.right != [] && Pieces(y.right)
    requires front != "" && front[|front| - 1] == ':' && ':' !in l && l != ""
    ensures !y.trail && y.right[|y.right| - 1] == l
    ensures Start(y) + Lead(y.right[..|y.right| - 1]) == front
  {
    var r, p := y.right[..|y.right| - 1], y.right[|y.right| - 1];
    assert y.right == r + [p] && p in y.right;
    assert ':' !in p;
    LastPieces(y, r, p);
    hide HexGroups, Form.Text, Form.Valid, Lead, Start, JoinGroups, Pieces;
    assert (front + l)[|front + l| - 1] != ':';
    StartAndLead(y, r);
    SameTail(Start(y) + Lead(r), p, front, l);
  }

  lemma LastPieces(y: Form, r: seq<string>, p: string)
    requires y.dotted.None? && y.right == r + [p]
    ensures y.Text() == Start(y) + Lead(r) + p + Colon(y.trail)
  {
    hide Form.Text, Lead, Start, JoinGroups;
    StartEnds(y);
    assert y.Last() == y.right;
    JoinLead(r, p);
    assert Start(y) + (Lead(r) + p) == Start(y) + Lead(r) + p;
  }

  /** The form with a dotted tail in place of its last two groups. */
  function Dotted(y: Form, quad: string): Form
    requires |y.right| >= 2
  {
    y.(right := y.right[..|y.right| - 2], dotted := Some(quad))
  }

  lemma DottedForm(y: Form, front: string, h: string, l: string, quad: string)
    requires IsPlainForm(y, front + h + ":" + l) && ParseIpv4(quad).Some?
    requires front != "" && front[|front| - 1] == ':' && IsHexGroup(h) && IsHexGroup(l)
    ensures |y.right| >= 2 && IsForm(Dotted(y, quad), front + quad)
  {
    hide IsHexGroup, ParseIpv4, Lead, JoinGroups;
    LastTwoGroups(y, front, h, l);
    var x := Dotted(y, quad);
    assert x.Count() == y.Count();
    assert HexGroups(x.right) by {
      assert forall p :: p in x.right ==> p in y.right;
    }
    assert Start(x) == Start(y);
    StartEnds(x);
    JoinLead(x.right, quad);
    assert front + quad == Start(x) + (Lead(x.right) + quad) + "";
  }

  /** The form of any accepted text. */
  lemma FormOf(s: string) returns (x: Form)
    requires ParseIpv6(s).Some?
    ensures IsForm(x, s)
  {
    var tail := AfterLastColon(s);
    TailSplits(s);
    hide ParseGroups, ParseIpv4, IsQuadText, AfterLastColon, PrintHex, Form.Text, HexGroups;
    if !IsQuadText(tail) {
      x := FormOfAccepted(s);
    } else {
      var front := s[..|s| - |tail|];
      assert s == front + tail;
      var h, l := PrintedQuad(tail);
      hide IsHexGroup, HexValue;
      var y := FormOfAccepted(front + h + ":" + l);
      DottedForm(y, front, h, l, tail);
      x := Dotted(y, tail);
    }
  }

  /** The parser accepts a text, as a number, exactly when the text has the form described above with that number:
      eight groups, or at most eight around "::", the last two dotted or not, and no more than one stray colon at each
      of the three places. */
  lemma AcceptedExactly(s: string, n: nat)
    ensures ParseIpv6(s) == Some(n) <==> exists x: Form :: IsForm(x, s) && Number(x.Groups()) == n
  {
    hide ParseIpv6, Number, Form.Text, HexGroups, Form.Count, ParseIpv4;
    if ParseIpv6(s) == Some(n) {
      var x := FormOf(s);
      FormParses(x, s);
    }
    forall x: Form | IsForm(x, s) && Number(x.Groups()) == n
      ensures ParseIpv6(s) == Some(n)
    {
      FormParses(x, s);
    }
  }

  lemma FormParses(x: Form, s: string)
    requires IsForm(x, s)
    ensures ParseIpv6(s) == Some(Number(x.Groups()))
  {
    hide *;
    if x.dotted.Some? {
      DottedFormParses(x, s);
    } else {
      UndottedFormParses(x, s);
    }
  }

  // ---------- outside the grammar ----------

  predicate SingleColonFirst(s: string) {
    s != "" && s[0] == ':' && (|s| == 1 || s[1] != ':')
  }

  predicate SingleColonLast(s: string) {
    s != "" && s[|s| - 1] == ':' && (|s| == 1 || s[|s| - 2] != ':')
  }

  predicate ThreeColons(s: string) {
    exists i :: 0 <= i < |s| - 2 && s[i] == ':' && s[i + 1] == ':' && s[i + 2] == ':'
  }

  /** The groups that are written out, a dotted tail counting for two. */
  function WrittenGroups(s: string): nat {
    |Fields(s)| + if IsQuadText(AfterLastColon(s)) then 1 else 0
  }

  /** The dotted tail has an octet with leading zeros. */
  predicate PaddedTail(s: string) {
    IsQuadText(AfterLastColon(s)) && HasPaddedOctet(AfterLastColon(s))
  }

  /** What can be wrong with an accepted text: a single colon at either end, three in a row, "::" with nothing left for
      it to stand for, or leading zeros in a dotted tail. */
  ghost predicate OutsideGrammar(s: string) {
    || SingleColonFirst(s) || SingleColonLast(s) || ThreeColons(s) || (!NoDouble(s) && WrittenGroups(s) == 8)
    || PaddedTail(s)
  }

  /** A dotted tail of the grammar holds decimal numbers below 256 in the standard notation, without leading zeros. */
  ghost predicate InGrammar(sp: Spelling) {
    sp.Valid() && (sp.dotted.Some? ==> exists q :: WritesQuad(sp.dotted.value, q))
  }

  lemma FormPieces(x: Form)
    requires x.Valid()
    ensures Pieces(x.left) && Pieces(x.Last())
    ensures !x.gap ==> x.Last() != []
  {
    HexAreFields(x.left);
    HexAreFields(x.right);
    hide HexGroups, ParseIpv4;
    if x.dotted.Some? {
      QuadOfValid(x.dotted.value);
      QuadHasNoColon(x.dotted.value);
    }
  }

  /** Text without two colons in a row and without one at either end. */
  ghost predicate Clean(s: string) {
    NoDouble(s) && (s != "" ==> s[0] != ':' && s[|s| - 1] != ':')
  }

  lemma NoThreeColons(a: string, b: string)
    requires NoDouble(a) && NoDouble(b)
    requires (a != "" ==> a[|a| - 1] != ':') && (b != "" ==> b[0] != ':')
    ensures !ThreeColons(a + "::" + b)
  {
    var s := a + "::" + b;
    forall i | 0 <= i < |s| - 2
      ensures !(s[i] == ':' && s[i + 1] == ':' && s[i + 2] == ':')
    {
      if i + 1 < |a| {
        assert s[i] == a[i] && s[i + 1] == a[i + 1];
      } else if i >= |a| + 2 {
        assert s[i] == b[i - |a| - 2] && s[i + 1] == b[i - |a| - 2 + 1];
      }
    }
  }

  lemma DoubleIsSeen(a: string, b: string)
    ensures !NoDouble(a + "::" + b)
    ensures b != "" && b[0] == ':' ==> ThreeColons(a + "::" + b)
  {
    var s := a + "::" + b;
    assert s[|a|] == ':' && s[|a| + 1] == ':';
    assert b != "" && b[0] == ':' ==> s[|a| + 2] == ':';
  }

  lemma GapShows(lead: bool, l: string, after: bool, p: string, trail: bool)
    requires Clean(l) && Clean(p) && (l == "" ==> !lead) && (p == "" ==> !trail)
    requires NoDouble(Colon(lead) + l) && NoDouble(p + Colon(trail))
    ensures var s := Colon(lead) + l + "::" + (Colon(after) + p + Colon(trail));
            && (SingleColonFirst(s) <==> lead) && (SingleColonLast(s) <==> trail)
            && (ThreeColons(s) <==> after) && !NoDouble(s)
  {
    hide ThreeColons, NoDouble;
    var a, b := Colon(lead) + l, Colon(after) + p + Colon(trail);
    DoubleIsSeen(a, b);
    if !after {
      assert b == p + Colon(trail);
      NoThreeColons(a, b);
    }
  }

  lemma NoGapShows(lead: bool, p: string, trail: bool)
    requires Clean(p) && p != "" && NoDouble(Colon(lead) + p + Colon(trail))
    ensures var s := Colon(lead) + p + Colon(trail);
            (SingleColonFirst(s) <==> lead) && (SingleColonLast(s) <==> trail) && !ThreeColons(s)
  {
    var s := Colon(lead) + p + Colon(trail);
    forall i | 0 <= i < |s| - 2
      ensures !(s[i] == ':' && s[i + 1] == ':')
    {
    }
    hide NoDouble;
    assert lead ==> s[1] == p[0];
    assert trail ==> s[|s| - 2] == p[|p| - 1];
  }

  /** Each stray colon shows in the text. */
  lemma StrayColonsShow(x: Form)
    requires x.Valid()
    ensures SingleColonFirst(x.Text()) <==> x.lead
    ensures SingleColonLast(x.Text()) <==> x.trail
    ensures ThreeColons(x.Text()) <==> x.after
    ensures NoDouble(x.Text()) <==> !x.gap
  {
    FormPieces(x);
    CleanPieces(x.left);
    CleanPieces(x.Last());
    hide HexGroups, Pieces, ParseIpv4, JoinGroups, NoDouble, SingleColonFirst, SingleColonLast, ThreeColons;
    hide Clean, Form.Last;
    var l, p := JoinGroups(x.left), JoinGroups(x.Last());
    if x.gap {
      EnclosedPieces(x.lead, x.left, false);
      EnclosedPieces(false, x.Last(), x.trail);
      assert Colon(x.lead) + l + Colon(false) == Colon(x.lead) + l;
      assert Colon(false) + p + Colon(x.trail) == p + Colon(x.trail);
      GapShows(x.lead, l, x.after, p, x.trail);
    } else {
      EnclosedPieces(x.lead, x.Last(), x.trail);
      NoGapShows(x.lead, p, x.trail);
    }
  }

  lemma CleanPieces(parts: seq<string>)
    requires Pieces(parts)
    ensures Clean(JoinGroups(parts)) && (JoinGroups(parts) == "" <==> parts == [])
  {
    JoinedPieces(parts);
  }

  lemma FieldsAtGap(a: string, b: string)
    ensures Fields(a + "::" + b) == Fields(a) + Fields(b)
  {
    hide Fields;
    FieldsAtColon(a, ":" + b);
    FieldsAtColon("", b);
    FieldsOfNothing();
    assert "" + [':'] + b == ":" + b;
    assert a + [':'] + (":" + b) == a + "::" + b;
  }

  lemma FieldsOfForm(x: Form)
    requires x.Valid()
    ensures Fields(x.Text()) == x.left + x.Last()
  {
    FormPieces(x);
    hide HexGroups, Pieces, ParseIpv4, JoinGroups, Fields, Form.Last;
    if x.gap {
      FieldsOfPieces(x.lead, x.left, false);
      FieldsOfPieces(x.after, x.Last(), x.trail);
      assert x.Before() + Colon(false) == x.Before();
      FieldsAtGap(x.Before(), x.Behind());
    } else {
      FieldsOfPieces(x.lead, x.Last(), x.trail);
    }
  }

  lemma TailOfDotted(x: Form)
    requires x.Valid() && x.dotted.Some?
    ensures IsQuadText(AfterLastColon(x.Text())) && AfterLastColon(x.Text()) == x.dotted.value
  {
    UndottedText(x, "", "");
    FrontOfForm(x);
    hide *;
    QuadOfValid(x.dotted.value);
    QuadHasNoColon(x.dotted.value);
    AfterLastColonOf(Start(x) + Lead(x.right), x.dotted.value);
  }

  lemma TailOfUndotted(x: Form)
    requires x.Valid() && x.dotted.None?
    ensures !IsQuadText(AfterLastColon(x.Text()))
  {
    UndottedChars(x);
    hide *;
    NoDotAfterColon(x.Text());
    if IsQuadText(AfterLastColon(x.Text())) {
      QuadHasNoColon(AfterLastColon(x.Text()));
    }
  }

  /** The groups written out are those of the form. */
  lemma GroupsShow(x: Form)
    requires x.Valid()
    ensures WrittenGroups(x.Text()) == x.Count()
  {
    hide HexGroups, ParseIpv4, JoinGroups, Fields, IsQuadText, AfterLastColon, Form.Text;
    FieldsOfForm(x);
    if x.dotted.Some? {
      TailOfDotted(x);
    } else {
      TailOfUndotted(x);
    }
  }

  /** The form of a text the grammar allows. */
  function FormOfSpelling(sp: Spelling): Form {
    Form(false, LowerAll(sp.left), sp.compressed, false, LowerAll(sp.right), false, sp.dotted)
  }

  lemma SpellingFormIsValid(sp: Spelling)
    requires sp.Valid()
    ensures FormOfSpelling(sp).Valid()
    ensures sp.compressed ==> FormOfSpelling(sp).Count() <= 7
  {
    LowerGroups(sp.left);
    LowerGroups(sp.right);
    hide HexGroups, IsGroupText, ParseIpv4, GroupValues;
    assert FormOfSpelling(sp).Count() == |sp.left| + |sp.RightGroups()|;
  }

  lemma SpellingFormText(sp: Spelling)
    requires sp.Valid()
    ensures FormOfSpelling(sp).Text() == Lower(sp.Text())
  {
    var x := FormOfSpelling(sp);
    LoweredText(sp);
    FlawlessText(x);
    hide HexGroups, IsGroupText, ParseIpv4, JoinGroups, Lead, Spelling.Valid, Spelling.Text, Form.Text, Lower, LowerAll;
    match sp.dotted {
      case None => assert x.Last() == x.right;
      case Some(quad) => JoinLead(x.right, quad);
    }
  }

  lemma FlawlessText(x: Form)
    requires !x.lead && !x.after && !x.trail
    ensures x.Text() == (if x.gap then JoinGroups(x.left) + "::" else "") + JoinGroups(x.Last())
  {
    hide JoinGroups, Form.Last;
    var p := JoinGroups(x.Last());
    assert Colon(false) + p + Colon(false) == p;
    assert x.Before() == JoinGroups(x.left);
  }

  /** The form of a spelling has its text in lower case. */
  lemma SpellingHasForm(sp: Spelling)
    requires sp.Valid()
    ensures IsForm(FormOfSpelling(sp), Lower(sp.Text()))
    ensures sp.compressed ==> FormOfSpelling(sp).Count() <= 7
  {
    SpellingFormIsValid(sp);
    SpellingFormText(sp);
    hide Form.Text, Spelling.Text, Form.Valid;
  }

  lemma LowerHex(parts: seq<string>)
    requires HexGroups(parts)
    ensures LowerAll(parts) == parts && forall p :: p in parts ==> IsGroupText(p)
  {
    forall i | 0 <= i < |parts|
      ensures Lower(parts[i]) == parts[i]
    {
      assert parts[i] in parts && IsHexGroup(parts[i]);
    }
    forall p | p in parts
      ensures IsGroupText(p)
    {
      assert IsHexGroup(p);
    }
  }

  lemma FormWithoutFlaws(x: Form)
    requires x.Valid() && !x.lead && !x.after && !x.trail && (x.gap ==> x.Count() <= 7)
    ensures var sp := Spelling(x.left, x.gap, x.right, x.dotted);
            sp.Valid() && Lower(sp.Text()) == x.Text()
  {
    LowerHex(x.left);
    LowerHex(x.right);
    hide HexGroups, IsGroupText, ParseIpv4, JoinGroups, Lead, GroupValues;
    var sp := Spelling(x.left, x.gap, x.right, x.dotted);
    assert x.Count() == |sp.left| + |sp.RightGroups()|;
    SpellingHasForm(sp);
    assert FormOfSpelling(sp) == x;
  }

  /** The dotted tail of a form is of the grammar exactly when it is not padded. */
  lemma TailShows(x: Form)
    requires x.Valid()
    ensures !PaddedTail(x.Text()) <==> (x.dotted.Some? ==> exists q :: WritesQuad(x.dotted.value, q))
  {
    hide HexGroups, ParseIpv4, IsQuadText, AfterLastColon, Form.Text, WritesQuad, HasPaddedOctet;
    if x.dotted.Some? {
      TailOfDotted(x);
      QuadIsWritten(x.dotted.value);
      forall q | WritesQuad(x.dotted.value, q)
        ensures WritesQuad(x.dotted.value, ParseIpv4(x.dotted.value).value)
      {
        WrittenQuadParses(x.dotted.value, q);
      }
    } else {
      TailOfUndotted(x);
    }
  }

  /** An accepted text is one that section 2.2 of RFC 4291 allows, but for the case of its letters, exactly when it has
      none of the five flaws. */
  lemma AcceptedOutsideGrammar(s: string)
    requires ParseIpv6(s).Some?
    ensures (exists sp: Spelling :: InGrammar(sp) && Lower(sp.Text()) == s) <==> !OutsideGrammar(s)
  {
    hide ParseIpv6, Form.Text, Spelling.Text, SingleColonFirst, SingleColonLast, ThreeColons, NoDouble, WrittenGroups;
    hide Spelling.Valid, PaddedTail;
    if !OutsideGrammar(s) {
      var x := FormOf(s);
      StrayColonsShow(x);
      GroupsShow(x);
      TailShows(x);
      FormWithoutFlaws(x);
    }
    forall sp: Spelling | InGrammar(sp) && Lower(sp.Text()) == s
      ensures !OutsideGrammar(s)
    {
      var x := FormOfSpelling(sp);
      SpellingHasForm(sp);
      StrayColonsShow(x);
      GroupsShow(x);
      TailShows(x);
    }
  }

  /** One of the flaws: a stray colon before eight groups is overlooked. */
  lemma StrayColonAccepted(parts: seq<string>)
    requires HexGroups(parts) && |parts| == 8
    ensures ParseIpv6(":" + JoinGroups(parts)) == Some(Number(HexValues(parts)))
    ensures OutsideGrammar(":" + JoinGroups(parts))
  {
    var x := Form(true, [], false, false, parts, false, None);
    assert x.Last() == parts;
    assert x.Text() == ":" + JoinGroups(parts);
    assert x.Groups() == HexValues(parts);
    hide ParseIpv6, HexGroups, Number, JoinGroups, Form.Text, NoDouble, WrittenGroups, SingleColonFirst;
    FormParses(x, x.Text());
    StrayColonsShow(x);
  }

  /** The shortest text with a flaw: three colons are the address 0. */
  lemma ThreeColonsAccepted()
    ensures ParseIpv6(":::") == Some(0) && OutsideGrammar(":::")
  {
    var x := Form(false, [], true, true, [], false, None);
    assert x.Last() == [] && JoinGroups([]) == "";
    assert x.Text() == ":::";
    assert x.Groups() == ZeroValues(8);
    ZeroNumber(8);
    hide ParseIpv6, JoinGroups, Form.Text, NoDouble, WrittenGroups, ThreeColons, Number;
    FormParses(x, ":::");
    StrayColonsShow(x);
  }

  lemma {:induction false} ZeroNumber(n: nat)
    ensures Number(ZeroValues(n)) == 0
  {
    if n > 0 {
      ZeroNumber(n - 1);
      assert ZeroValues(n)[..n - 1] == ZeroValues(n - 1);
    }
  }

  lemma HexValuesBound(parts: seq<string>)
    requires HexGroups(parts)
    ensures forall i :: 0 <= i < |parts| ==> HexValues(parts)[i] < 0x1_0000
  {
    LowerHex(parts);
    hide GroupValue, HexValue;
    forall i | 0 <= i < |parts|
      ensures HexValues(parts)[i] < 0x1_0000
    {
      assert parts[i] in parts && IsHexGroup(parts[i]) && IsGroupText(parts[i]);
      assert Lower(parts[i]) == LowerAll(parts)[i] == parts[i];
      LowerGroup(parts[i]);
      GroupValueBound(parts[i]);
    }
  }

  lemma FormIsAddress(x: Form)
    requires x.Valid()
    ensures IsAddress(x.Groups())
  {
    HexValuesBound(x.left);
    HexValuesBound(x.right);
    hide HexGroups, HexValues, ParseIpv4;
  }

  /** Every accepted text, flawed or not, is classified by its groups: public exactly inside 2000::/3 and outside
      2001:db8::/32. */
  lemma AcceptedIsClassified(value: string, x: Form)
    requires IsForm(x, Lower(StripBrackets(value)))
    ensures var g := x.Groups();
            var scope := if 0x2000 <= g[0] < 0x4000 && !(g[0] == 0x2001 && g[1] == 0xdb8) then Public else NonPublic;
            |g| == 8 && Classify(value) == Some(scope)
  {
    var s := Lower(StripBrackets(value));
    assert ':' in s by {
      FormHasColon(x);
    }
    hide ParseIpv6, ParseIpv4, Form.Text, Form.Valid, Form.Groups, IsPublicIpv6, Number, Lower, StripBrackets;
    FormIsNotIpv4(s);
    FormParses(x, s);
    FormIsAddress(x);
    PublicRange(x.Groups());
  }

  lemma FormHasColon(x: Form)
    requires x.Valid()
    ensures ':' in x.Text()
  {
    if x.dotted.None? {
      UndottedChars(x);
    } else {
      FrontOfForm(x);
      UndottedText(x, "", "");
      hide Form.Text, Start, Lead, HexGroups, ParseIpv4;
      var front := Start(x) + Lead(x.right);
      assert x.Text()[|front| - 1] == ':';
    }
  }

  // ---------- every form of the grammar ----------

  lemma SpellingFormGroups(sp: Spelling)
    requires sp.Valid() && FormOfSpelling(sp).Valid()
    ensures FormOfSpelling(sp).Groups() == sp.Groups()
  {
    LowerGroups(sp.left);
    LowerGroups(sp.right);
    hide IsGroupText, GroupValues, HexValues, HexGroups, ParseIpv4;
    var x := FormOfSpelling(sp);
    assert x.Count() == |sp.left| + |sp.RightGroups()|;
  }

  /** Every textual form of an address parses to that address. */
  lemma EveryFormParses(sp: Spelling)
    requires sp.Valid()
    ensures ParseIpv6(Lower(sp.Text())) == Some(Number(sp.Groups()))
  {
    SpellingFormIsValid(sp);
    hide *;
    SpellingHasForm(sp);
    SpellingFormGroups(sp);
    FormParses(FormOfSpelling(sp), Lower(sp.Text()));
  }

  /** However an address is written, bracketed or not, the answer depends on its eight groups alone:
      public exactly when it lies in 2000::/3 outside 2001:db8::/32. */
  lemma SpellingDoesNotMatter(sp: Spelling)
    requires sp.Valid()
    ensures var g := sp.Groups();
            var scope := if 0x2000 <= g[0] < 0x4000 && !(g[0] == 0x2001 && g[1] == 0xdb8) then Public else NonPublic;
            Classify(sp.Text()) == Some(scope) && Classify("[" + sp.Text() + "]") == Some(scope)
  {
    SpellingFormIsValid(sp);
    hide *;
    SpellingHasForm(sp);
    SpellingFormGroups(sp);
    TextChars(sp);
    NothingStripped(sp.Text());
    AcceptedIsClassified(sp.Text(), FormOfSpelling(sp));
    AcceptedIsClassified("[" + sp.Text() + "]", FormOfSpelling(sp));
  }
}
