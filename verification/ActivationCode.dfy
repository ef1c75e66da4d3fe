/** Activation codes: "CE1-" and the unpadded base64url text of a small JSON document. */
module ActivationCode {
  import opened Wrappers
  import opened Words
  import opened Text
  import Base64

  function ReplaceAll(s: string, from: char, to: char): (r: string)
    ensures |r| == |s| && forall i :: 0 <= i < |s| ==> r[i] == if s[i] == from then to else s[i]
  {
    seq(|s|, i requires 0 <= i < |s| => if s[i] == from then to else s[i])
  }

  function StripTrailing(s: string, c: char): string {
    if s == "" || s[|s| - 1] != c then s else StripTrailing(s[..|s| - 1], c)
  }

  /** The URL-safe alphabet of section 5 of RFC 4648. */
  function ToUrlSafe(s: string): string {
    ReplaceAll(ReplaceAll(s, '+', '-'), '/', '_')
  }

  function FromUrlSafe(s: string): (r: string)
    ensures |r| == |s|
  {
    ReplaceAll(ReplaceAll(s, '-', '+'), '_', '/')
  }

  function UrlSafe(b: seq<byte>): string {
    StripTrailing(ToUrlSafe(Base64.Encode(b)), '=')
  }

  /** The loop that builds the binary string for `btoa`. */
  method Base64UrlNoPad(bytes: array<byte>) returns (text: string)
    ensures text == UrlSafe(bytes[..])
  {
    var binary: string := "";
    for i := 0 to bytes.Length
      invariant binary == Base64.Latin1(bytes[..i])
    {
      binary := binary + [bytes[i] as char];
      assert bytes[..i + 1] == bytes[..i] + [bytes[i]];
    }
    assert bytes[..bytes.Length] == bytes[..];
    assert Base64.CharCodes(binary) == bytes[..];
    text := StripTrailing(ToUrlSafe(Base64.Encode(Base64.CharCodes(binary))), '=');
  }

  // ---------- codes ----------

  datatype Payload = Payload(host: string, port: int, user: string, pass: string, ip: string, tz: string)

  /** The JSON document, with its version number. */
  datatype Document = Document(v: int, payload: Payload)

  /** JSON and UTF-8 as the platform provides them. */
  datatype Codec = Codec(write: Document -> seq<byte>, read: seq<byte> -> Option<Document>) {
    ghost predicate Lawful() {
      forall d :: read(write(d)) == Some(d)
    }
  }

  const PREFIX := "CE1-"

  function EncodeActivationCode(codec: Codec, input: Payload): string {
    PREFIX + UrlSafe(codec.write(Document(1, input)))
  }

  /** The bytes behind the text after the prefix. */
  function DecodeUrlSafe(text: string): Option<seq<byte>> {
    var b64 := FromUrlSafe(text);
    Base64.Decode(b64 + Repeat('=', Base64.PaddingFor(|b64|)))
  }

  function DecodeActivationCode(codec: Codec, code: string): Option<Document> {
    if |code| < 4 || code[..4] != PREFIX then None
    else
      match DecodeUrlSafe(code[4..])
      case None => None
      case Some(bytes) => codec.read(bytes)
  }

  // ---------- round trip ----------

  predicate IsUrlSafe(c: char) {
    'A' <= c <= 'Z' || 'a' <= c <= 'z' || '0' <= c <= '9' || c == '-' || c == '_'
  }

  lemma {:induction false} StripPadding(s: string, n: nat)
    requires s != "" ==> s[|s| - 1] != '='
    ensures StripTrailing(s + Repeat('=', n), '=') == s
  {
    var t := s + Repeat('=', n);
    if n == 0 {
      assert t == s;
    } else {
      assert t[..|t| - 1] == s + Repeat('=', n - 1);
      StripPadding(s, n - 1);
    }
  }

  lemma SwapAlphabet(s: string, n: nat)
    requires Base64.AllLetters(s)
    ensures ToUrlSafe(s + Repeat('=', n)) == ToUrlSafe(s) + Repeat('=', n)
    ensures |ToUrlSafe(s)| == |s| && forall i :: 0 <= i < |s| ==> IsUrlSafe(ToUrlSafe(s)[i])
    ensures FromUrlSafe(ToUrlSafe(s)) == s
  {
  }

  /** The text is the letters of the padded encoding, one for one, in the URL-safe alphabet. */
  lemma UrlSafeIsLetters(b: seq<byte>)
    ensures UrlSafe(b) == ToUrlSafe(Base64.Letters(b))
    ensures FromUrlSafe(UrlSafe(b)) == Base64.Letters(b)
    ensures forall i :: 0 <= i < |UrlSafe(b)| ==> IsUrlSafe(UrlSafe(b)[i])
    ensures |UrlSafe(b)| == (4 * |b| + 2) / 3 && |UrlSafe(b)| % 4 != 1
  {
    var s := Base64.Letters(b);
    Base64.LettersLength(b);
    Base64.EncodeIsPadded(b);
    SwapAlphabet(s, Base64.PaddingFor(|s|));
    StripPadding(ToUrlSafe(s), Base64.PaddingFor(|s|));
  }

  /** Swapping the alphabet, stripping the padding and restoring both loses nothing, on every byte string. */
  lemma UrlSafeRoundTrip(b: seq<byte>)
    ensures DecodeUrlSafe(UrlSafe(b)) == Some(b)
  {
    hide UrlSafe, Base64.Letters, Base64.Encode, Base64.Decode;
    UrlSafeIsLetters(b);
    Base64.EncodeIsPadded(b);
    Base64.DecodeOfEncode(b);
  }

  /** Decoding an encoded payload returns it, with version 1. */
  lemma ActivationCodeRoundTrip(codec: Codec, input: Payload)
    requires codec.Lawful()
    ensures DecodeActivationCode(codec, EncodeActivationCode(codec, input)) == Some(Document(1, input))
  {
    var text := UrlSafe(codec.write(Document(1, input)));
    UrlSafeRoundTrip(codec.write(Document(1, input)));
    assert (PREFIX + text)[..4] == PREFIX && (PREFIX + text)[4..] == text;
  }

  // ---------- which texts are canonical ----------

  /** The low bits of the last letter that no byte uses. */
  function UnusedBits(s: string): nat
    requires Base64.AllLetters(s) && |s| % 4 != 1
  {
    if |s| % 4 == 2 then Base64.LetterValue(s[|s| - 1]) % 16
    else if |s| % 4 == 3 then Base64.LetterValue(s[|s| - 1]) % 4
    else 0
  }

  lemma SextetsRejoin(p: Base64.sextet, q: Base64.sextet, r: Base64.sextet, s: Base64.sextet)
    ensures Base64.First(Base64.JoinBits1(p, q)) == p
    ensures Base64.Second(Base64.JoinBits1(p, q), Base64.JoinBits2(q, r)) == q
    ensures Base64.Third(Base64.JoinBits2(q, r), Base64.JoinBits3(r, s)) == r
    ensures Base64.Fourth(Base64.JoinBits3(r, s)) == s
  {
  }

  lemma LastOfTwo(p: Base64.sextet, q: Base64.sextet)
    ensures Base64.First(Base64.JoinBits1(p, q)) == p
    ensures Base64.Second(Base64.JoinBits1(p, q), 0) == q <==> (q as int) % 16 == 0
  {
  }

  lemma LastOfThree(q: Base64.sextet, r: Base64.sextet)
    ensures Base64.Third(Base64.JoinBits2(q, r), 0) == r <==> (r as int) % 4 == 0
  {
  }

  lemma LettersOfGroup(a: byte, b: byte, c: byte, rest: seq<byte>)
    ensures Base64.Letters([a, b, c] + rest)
         == Base64.Quad(a, b, c) + Base64.Letters(rest)
  {
    hide Base64.Quad;
    assert ([a, b, c] + rest)[3..] == rest;
  }

  /** A full group of four letters is always given back. */
  lemma GroupCanonical(s: string)
    requires Base64.AllLetters(s) && |s| % 4 != 1 && |s| >= 4
    ensures Base64.Letters(Base64.DecodeLetters(s)) == s[..4] + Base64.Letters(Base64.DecodeLetters(s[4..]))
  {
    hide Base64.Letter, Base64.IsLetter, Base64.LetterValue, Base64.Letters;
    hide Base64.First, Base64.Second, Base64.Third, Base64.Fourth;
    hide Base64.JoinBits1, Base64.JoinBits2, Base64.JoinBits3;
    var p, q := Base64.LetterValue(s[0]), Base64.LetterValue(s[1]);
    var r, t := Base64.LetterValue(s[2]), Base64.LetterValue(s[3]);
    SextetsRejoin(p, q, r, t);
    LettersOfGroup(Base64.JoinBits1(p, q), Base64.JoinBits2(q, r), Base64.JoinBits3(r, t),
                   Base64.DecodeLetters(s[4..]));
    assert s[..4] == [Base64.Letter(p), Base64.Letter(q), Base64.Letter(r), Base64.Letter(t)];
  }

  lemma UnusedBitsOfTail(s: string)
    requires Base64.AllLetters(s) && |s| % 4 != 1 && |s| >= 4
    ensures |s[4..]| % 4 != 1 && UnusedBits(s[4..]) == UnusedBits(s)
  {
    hide Base64.IsLetter, Base64.LetterValue;
    if |s| > 4 {
      assert s[4..][|s[4..]| - 1] == s[|s| - 1];
    }
  }

  lemma CancelFront(s: string, front: string, rest: string)
    requires |s| >= 4 && front == s[..4]
    ensures front + rest == s <==> rest == s[4..]
  {
    assert s == front + s[4..];
    assert (front + rest)[4..] == rest;
  }

  /** Re-encoding decoded letters gives them back exactly when the unused bits are zero. */
  lemma {:induction false} LettersCanonical(s: string)
    requires Base64.AllLetters(s) && |s| % 4 != 1
    ensures Base64.Letters(Base64.DecodeLetters(s)) == s <==> UnusedBits(s) == 0
  {
    hide *;
    if |s| >= 4 {
      AllLettersOfTail(s);
      UnusedBitsOfTail(s);
      LettersCanonical(s[4..]);
      GroupCanonical(s);
      CancelFront(s, s[..4], Base64.Letters(Base64.DecodeLetters(s[4..])));
    } else {
      ShortCanonical(s);
    }
  }

  lemma AllLettersOfTail(s: string)
    requires Base64.AllLetters(s) && |s| >= 4
    ensures Base64.AllLetters(s[4..])
  {
  }

  lemma TwoCanonical(s: string)
    requires Base64.AllLetters(s) && |s| == 2
    ensures Base64.Letters(Base64.DecodeLetters(s)) == s <==> Base64.LetterValue(s[1]) as int % 16 == 0
  {
    hide Base64.Letter, Base64.IsLetter, Base64.LetterValue, Base64.First, Base64.Second, Base64.JoinBits1;
    var p, q := Base64.LetterValue(s[0]), Base64.LetterValue(s[1]);
    var q' := Base64.Second(Base64.JoinBits1(p, q), 0);
    LastOfTwo(p, q);
    Base64.LetterIsLetter(q);
    Base64.LetterIsLetter(q');
    assert s == [Base64.Letter(p), Base64.Letter(q)];
    assert Base64.Letters(Base64.DecodeLetters(s)) == [Base64.Letter(p), Base64.Letter(q')];
  }

  lemma ThreeCanonical(s: string)
    requires Base64.AllLetters(s) && |s| == 3
    ensures Base64.Letters(Base64.DecodeLetters(s)) == s <==> Base64.LetterValue(s[2]) as int % 4 == 0
  {
    hide Base64.Letter, Base64.IsLetter, Base64.LetterValue, Base64.First, Base64.Second, Base64.Third;
    hide Base64.JoinBits1, Base64.JoinBits2;
    var p, q, r := Base64.LetterValue(s[0]), Base64.LetterValue(s[1]), Base64.LetterValue(s[2]);
    var r' := Base64.Third(Base64.JoinBits2(q, r), 0);
    SextetsRejoin(p, q, r, 0);
    LastOfThree(q, r);
    Base64.LetterIsLetter(r);
    Base64.LetterIsLetter(r');
    assert s == [Base64.Letter(p), Base64.Letter(q), Base64.Letter(r)];
    assert Base64.Letters(Base64.DecodeLetters(s)) == [Base64.Letter(p), Base64.Letter(q), Base64.Letter(r')];
  }

  lemma ShortCanonical(s: string)
    requires Base64.AllLetters(s) && |s| % 4 != 1 && |s| <= 3
    ensures Base64.Letters(Base64.DecodeLetters(s)) == s <==> UnusedBits(s) == 0
  {
    hide Base64.LetterValue, Base64.IsLetter, Base64.Letters, Base64.DecodeLetters;
    if |s| == 2 {
      TwoCanonical(s);
    } else if |s| == 3 {
      ThreeCanonical(s);
    } else {
      EmptyCanonical(s);
    }
  }

  lemma EmptyCanonical(s: string)
    requires s == ""
    ensures Base64.Letters(Base64.DecodeLetters(s)) == s
  {
  }

  predicate AllUrlSafe(t: string) {
    forall i :: 0 <= i < |t| ==> IsUrlSafe(t[i])
  }

  /** A URL-safe text decodes exactly when its length is not one more than a multiple of four,
      and it is the text that its bytes encode to exactly when its unused bits are zero. */
  lemma UrlSafeTextDecodes(t: string)
    requires AllUrlSafe(t)
    ensures Base64.AllLetters(FromUrlSafe(t))
    ensures DecodeUrlSafe(t).Some? <==> |t| % 4 != 1
    ensures DecodeUrlSafe(t).Some? ==>
              (UrlSafe(DecodeUrlSafe(t).value) == t <==> UnusedBits(FromUrlSafe(t)) == 0)
  {
    SwapBack(t);
    var s := FromUrlSafe(t);
    hide UrlSafe, Base64.Letters, Base64.DecodeLetters, Base64.IsLetter, ToUrlSafe, FromUrlSafe;
    if |t| % 4 != 1 {
      Base64.DecodeOfPadded(s);
      LettersCanonical(s);
      UrlSafeIsLetters(Base64.DecodeLetters(s));
    } else {
      OddLengthRefused(s);
    }
  }

  lemma SwapBack(t: string)
    requires AllUrlSafe(t)
    ensures Base64.AllLetters(FromUrlSafe(t)) && ToUrlSafe(FromUrlSafe(t)) == t
  {
  }

  lemma OddLengthRefused(s: string)
    requires Base64.AllLetters(s) && |s| % 4 == 1
    ensures Base64.Decode(s + Repeat('=', Base64.PaddingFor(|s|))) == None
  {
    hide Base64.DropSpaces, Base64.DecodeLetters;
    var padded := s + Repeat('=', 3);
    Base64.NothingToDrop(padded);
    var kept := padded[..|padded| - 2];
    assert Base64.DropPadding(padded) == kept;
    assert kept[|s|] == '=';
  }

  /** A code is read as a document exactly when it is the prefix and a text whose bytes are read as that document. */
  lemma CodeReadExactly(codec: Codec, code: string, d: Document)
    ensures DecodeActivationCode(codec, code) == Some(d) <==>
              exists text, bytes ::
                code == "CE1-" + text && DecodeUrlSafe(text) == Some(bytes) && codec.read(bytes) == Some(d)
  {
    hide DecodeUrlSafe;
    if |code| >= 4 && code[..4] == "CE1-" {
      assert code == "CE1-" + code[4..];
    }
    forall text | code == "CE1-" + text
      ensures code[..4] == "CE1-" && code[4..] == text
    {
    }
  }
}
