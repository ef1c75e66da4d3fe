/** Base64 with the standard alphabet of section 4 of RFC 4648:
    what `btoa` writes and `atob` accepts. */
module Base64 {
  import opened Wrappers
  import opened Words
  import opened Text

  type sextet = n: int | 0 <= n < 64

  function Letter(n: sextet): char {
    if n < 26 then ('A' as int + n) as char
    else if n < 52 then ('a' as int + n - 26) as char
    else if n < 62 then ('0' as int + n - 52) as char
    else if n == 62 then '+'
    else '/'
  }

  predicate IsLetter(c: char) {
    'A' <= c <= 'Z' || 'a' <= c <= 'z' || '0' <= c <= '9' || c == '+' || c == '/'
  }

  function LetterValue(c: char): (n: sextet)
    requires IsLetter(c)
    ensures Letter(n) == c
  {
    if 'A' <= c <= 'Z' then c as int - 'A' as int
    else if 'a' <= c <= 'z' then c as int - 'a' as int + 26
    else if '0' <= c <= '9' then c as int - '0' as int + 52
    else if c == '+' then 62
    else 63
  }

  lemma LetterIsLetter(n: sextet)
    ensures IsLetter(Letter(n)) && LetterValue(Letter(n)) == n
  {
  }

  function First(a: byte): sextet { (a as int) / 4 }
  function Second(a: byte, b: byte): sextet { (a as int) % 4 * 16 + (b as int) / 16 }
  function Third(b: byte, c: byte): sextet { (b as int) % 16 * 4 + (c as int) / 64 }
  function Fourth(c: byte): sextet { (c as int) % 64 }

  /** The four letters of three bytes. */
  function Quad(a: byte, b: byte, c: byte): (s: string)
    ensures |s| == 4
  {
    [Letter(First(a)), Letter(Second(a, b)), Letter(Third(b, c)), Letter(Fourth(c))]
  }

  /** The encoding with padding. */
  function Encode(b: seq<byte>): string {
    if |b| == 0 then ""
    else if |b| == 1 then [Letter(First(b[0])), Letter(Second(b[0], 0)), '=', '=']
    else if |b| == 2 then [Letter(First(b[0])), Letter(Second(b[0], b[1])), Letter(Third(b[1], 0)), '=']
    else Quad(b[0], b[1], b[2]) + Encode(b[3..])
  }

  /** A binary string has one character for each byte. */
  function Latin1(b: seq<byte>): (s: string)
    ensures |s| == |b| && forall i :: 0 <= i < |s| ==> s[i] as int == b[i]
  {
    seq(|b|, i requires 0 <= i < |b| => b[i] as char)
  }

  function CharCodes(s: string): (b: seq<byte>)
    requires forall i :: 0 <= i < |s| ==> s[i] as int < 256
    ensures |b| == |s| && forall i :: 0 <= i < |s| ==> s[i] as int == b[i]
  {
    seq(|s|, i requires 0 <= i < |s| => (s[i] as int) as byte)
  }

  // ---------- decoding ----------

  predicate IsSpace(c: char) {
    c in {' ', '\t', '\n', '\r', 12 as char}
  }

  function DropSpaces(s: string): string {
    if s == "" then "" else (if IsSpace(s[0]) then "" else [s[0]]) + DropSpaces(s[1..])
  }

  predicate AllLetters(s: string) {
    forall i :: 0 <= i < |s| ==> IsLetter(s[i])
  }

  function JoinBits1(p: sextet, q: sextet): byte { p * 4 + q / 16 }
  function JoinBits2(q: sextet, r: sextet): byte { q % 16 * 16 + r / 4 }
  function JoinBits3(r: sextet, s: sextet): byte { r % 4 * 64 + s }

  /** Groups of four letters, then two or three letters whose unused low bits are ignored. */
  function DecodeLetters(s: string): seq<byte>
    requires AllLetters(s) && |s| % 4 != 1
  {
    if |s| == 0 then []
    else
      var p, q := LetterValue(s[0]), LetterValue(s[1]);
      if |s| == 2 then [JoinBits1(p, q)]
      else
        var r := LetterValue(s[2]);
        if |s| == 3 then [JoinBits1(p, q), JoinBits2(q, r)]
        else [JoinBits1(p, q), JoinBits2(q, r), JoinBits3(r, LetterValue(s[3]))] + DecodeLetters(s[4..])
  }

  /** Up to two padding characters are dropped from a text whose length is a multiple of four. */
  function DropPadding(s: string): string {
    if |s| % 4 != 0 || |s| == 0 || s[|s| - 1] != '=' then s
    else if s[|s| - 2] == '=' then s[..|s| - 2]
    else s[..|s| - 1]
  }

  /** What `atob` computes; nothing when it throws. */
  function Decode(text: string): Option<seq<byte>> {
    var s := DropPadding(DropSpaces(text));
    if |s| % 4 == 1 || !AllLetters(s) then None else Some(DecodeLetters(s))
  }

  // ---------- the unpadded text ----------

  /** The letters without padding. */
  function Letters(b: seq<byte>): string {
    if |b| == 0 then ""
    else if |b| == 1 then [Letter(First(b[0])), Letter(Second(b[0], 0))]
    else if |b| == 2 then [Letter(First(b[0])), Letter(Second(b[0], b[1])), Letter(Third(b[1], 0))]
    else Quad(b[0], b[1], b[2]) + Letters(b[3..])
  }

  function PaddingFor(length: nat): nat {
    (4 - length % 4) % 4
  }

  /** No encoded length is one more than a multiple of four. */
  lemma {:induction false} LettersLength(b: seq<byte>)
    ensures AllLetters(Letters(b)) && |Letters(b)| == (4 * |b| + 2) / 3 && |Letters(b)| % 4 != 1
  {
    hide Letter;
    forall n: sextet
      ensures IsLetter(Letter(n))
    {
      LetterIsLetter(n);
    }
    if |b| >= 3 {
      LettersLength(b[3..]);
    }
  }

  /** The padded text is the letters followed by exactly the padding that its length calls for. */
  lemma {:induction false} EncodeIsPadded(b: seq<byte>)
    ensures Encode(b) == Letters(b) + Repeat('=', PaddingFor(|Letters(b)|))
  {
    hide Letter, First, Second, Third, Fourth, Quad;
    if |b| >= 3 {
      EncodeIsPadded(b[3..]);
      var rest := Letters(b[3..]);
      assert Letters(b) == Quad(b[0], b[1], b[2]) + rest;
      SameRemainder(|rest|);
      var padding := Repeat('=', PaddingFor(|rest|));
      assert Quad(b[0], b[1], b[2]) + (rest + padding) == Quad(b[0], b[1], b[2]) + rest + padding;
    }
  }

  lemma SameRemainder(n: nat)
    ensures (4 + n) % 4 == n % 4
  {
  }

  lemma BitsRejoin(a: byte, b: byte, c: byte)
    ensures JoinBits1(First(a), Second(a, b)) == a
    ensures JoinBits2(Second(a, b), Third(b, c)) == b
    ensures JoinBits3(Third(b, c), Fourth(c)) == c
  {
  }

  lemma {:induction false} DecodeOfLetters(b: seq<byte>)
    ensures AllLetters(Letters(b)) && |Letters(b)| % 4 != 1 && DecodeLetters(Letters(b)) == b
  {
    LettersLength(b);
    hide Letter, IsLetter, LetterValue, First, Second, Third, Fourth, JoinBits1, JoinBits2, JoinBits3;
    if |b| == 1 {
      BitsRejoin(b[0], 0, 0);
      LetterIsLetter(First(b[0]));
      LetterIsLetter(Second(b[0], 0));
    } else if |b| == 2 {
      BitsRejoin(b[0], b[1], 0);
      LetterIsLetter(First(b[0]));
      LetterIsLetter(Second(b[0], b[1]));
      LetterIsLetter(Third(b[1], 0));
    } else if |b| >= 3 {
      DecodeOfLetters(b[3..]);
      BitsRejoin(b[0], b[1], b[2]);
      LetterIsLetter(First(b[0]));
      LetterIsLetter(Second(b[0], b[1]));
      LetterIsLetter(Third(b[1], b[2]));
      LetterIsLetter(Fourth(b[2]));
      assert Letters(b)[4..] == Letters(b[3..]);
    }
  }

  lemma {:induction false} NothingToDrop(s: string)
    requires forall i :: 0 <= i < |s| ==> IsLetter(s[i]) || s[i] == '='
    ensures DropSpaces(s) == s
  {
    if s != "" {
      NothingToDrop(s[1..]);
    }
  }

  lemma EqualsIsNoLetter()
    ensures !IsLetter('=')
  {
  }

  lemma PaddingDropped(s: string)
    requires AllLetters(s) && |s| % 4 != 1
    ensures DropPadding(s + Repeat('=', PaddingFor(|s|))) == s
  {
    var t := s + Repeat('=', PaddingFor(|s|));
    assert s != "" ==> IsLetter(s[|s| - 1]);
    hide IsLetter;
    assert !IsLetter('=') by {
      EqualsIsNoLetter();
    }
    if |s| % 4 == 0 {
      assert t == s;
    } else if |s| % 4 == 2 {
      assert t[..|t| - 2] == s;
    } else {
      assert t[|t| - 2] == s[|s| - 1] && IsLetter(s[|s| - 1]);
      assert t[..|t| - 1] == s;
    }
  }

  lemma DecodeOfPadded(s: string)
    requires AllLetters(s) && |s| % 4 != 1
    ensures Decode(s + Repeat('=', PaddingFor(|s|))) == Some(DecodeLetters(s))
  {
    hide DropSpaces, DropPadding, DecodeLetters, PaddingFor;
    NothingToDrop(s + Repeat('=', PaddingFor(|s|)));
    PaddingDropped(s);
  }

  /** `atob` undoes `btoa` on every byte string. */
  lemma DecodeOfEncode(b: seq<byte>)
    ensures Decode(Encode(b)) == Some(b)
  {
    var s := Letters(b);
    LettersLength(b);
    EncodeIsPadded(b);
    DecodeOfPadded(s);
    DecodeOfLetters(b);
  }

  lemma {:induction false} DropSpacesConcat(s: string, t: string)
    ensures DropSpaces(s + t) == DropSpaces(s) + DropSpaces(t)
  {
    if s == "" {
      assert s + t == t;
    } else {
      assert (s + t)[1..] == s[1..] + t;
      DropSpacesConcat(s[1..], t);
    }
  }

  /** White space makes no difference anywhere: tab, line feed, form feed, carriage return and blank. */
  lemma SpacesIgnored(s: string, c: char, t: string)
    requires c as int in {9, 10, 12, 13, 32}
    ensures Decode(s + [c] + t) == Decode(s + t)
  {
    DropSpacesConcat(s + [c], t);
    DropSpacesConcat(s, [c]);
    DropSpacesConcat(s, t);
    assert [c][1..] == "";
    assert DropSpaces([c]) == "";
    assert DropSpaces(s) + "" == DropSpaces(s);
  }

  /** Any other character that is no letter and no padding makes the text unreadable. */
  lemma OthersRefused(s: string, c: char, t: string)
    requires c as int !in {9, 10, 12, 13, 32} && !IsLetter(c) && c != '='
    ensures Decode(s + [c] + t) == None
  {
    DropSpacesConcat(s + [c], t);
    DropSpacesConcat(s, [c]);
    assert [c][1..] == "" && DropSpaces([c]) == [c];
    hide DropSpaces, DecodeLetters;
    PaddingAtMost(DropSpaces(s + [c] + t), |DropSpaces(s)|);
  }

  /** Dropping padding drops nothing else. */
  lemma PaddingAtMost(u: string, k: nat)
    requires k < |u| && u[k] != '='
    ensures k < |DropPadding(u)| && DropPadding(u)[k] == u[k]
  {
  }
}
