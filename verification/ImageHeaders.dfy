/** Recognising uploaded images by their first bytes and reading their size from the header,
    for the formats that keep it at a fixed place. */
module ImageHeaders {
  import opened Wrappers
  import opened Words
  import opened ByteReading
  import PngWriter
  import Crc32

  datatype ImageType = PngImage | JpegImage | WebpImage

  datatype Size = Size(width: nat, height: nat)

  function DetectImageType(s: seq<byte>): Option<ImageType> {
    if |s| >= 33 && s[..8] == [0x89, 0x50, 0x4e, 0x47, 0x0d, 0x0a, 0x1a, 0x0a] && Ascii(s, 12, 16) == "IHDR"
    then Some(PngImage)
    else if |s| >= 16 && s[..3] == [0xff, 0xd8, 0xff] && s[|s| - 2] == 0xff && s[|s| - 1] == 0xd9
    then Some(JpegImage)
    else if |s| >= 16 && Ascii(s, 0, 4) == "RIFF" && Ascii(s, 8, 12) == "WEBP" && LittleEndian32(s, 4) + 8 <= |s|
    then Some(WebpImage)
    else None
  }

  function PngSize(s: seq<byte>): Size
    requires |s| >= 24
  {
    Size(BigEndian32(s, 16), BigEndian32(s, 20))
  }

  /** The three WebP layouts. On bytes, `& 0x3f` is `% 0x40` and `>> 6` is `/ 0x40`. */
  function WebpSize(s: seq<byte>): Option<Size> {
    var kind := Ascii(s, 12, 16);
    if kind == "VP8X" && |s| >= 30 then
      Some(Size(1 + LittleEndian24(s, 24), 1 + LittleEndian24(s, 27)))
    else if kind == "VP8L" && |s| >= 25 && s[20] == 0x2f then
      Some(Size(
        1 + (s[22] as int) % 0x40 * 0x100 + s[21] as int,
        1 + (s[24] as int) % 0x10 * 0x400 + (s[23] as int) * 4 + (s[22] as int) / 0x40))
    else if kind == "VP8 " && |s| >= 30 && s[23] == 0x9d && s[24] == 0x01 && s[25] == 0x2a then
      Some(Size(LittleEndian16(s, 26) % 0x4000, LittleEndian16(s, 28) % 0x4000))
    else None
  }

  predicate ValidSize(size: Size) {
    0 < size.width <= 10_000 && 0 < size.height <= 10_000
  }

  // ---------- PNG ----------

  lemma FourCharacters(s: seq<byte>, at: nat)
    requires at + 4 <= |s|
    ensures Ascii(s, at, at + 4) == [s[at] as char, s[at + 1] as char, s[at + 2] as char, s[at + 3] as char]
    ensures var four := s[at..at + 4];
            Ascii(s, at, at + 4) == [four[0] as char, four[1] as char, four[2] as char, four[3] as char]
  {
    assert Ascii(s, at + 3, at + 4) == [s[at + 3] as char];
    assert Ascii(s, at + 2, at + 4) == [s[at + 2] as char, s[at + 3] as char];
  }

  /** Where the fields of the first chunk lie. */
  lemma HeaderLayout(s: seq<byte>, length: seq<byte>, width: seq<byte>, height: seq<byte>, rest: seq<byte>)
    requires |length| == |width| == |height| == 4 && |rest| >= 9
    requires s == PngWriter.SIGNATURE + length + PngWriter.IHDR + width + height + rest
    ensures |s| >= 33 && s[..8] == PngWriter.SIGNATURE
    ensures s[12] == 73 && s[13] == 72 && s[14] == 68 && s[15] == 82
    ensures s[16..20] == width && s[20..24] == height
  {
  }

  /** Every PNG the seeder writes is recognised as a PNG, and its size reads back:
      the validator accepts it exactly when both sides are between 1 and 10000. */
  lemma WrittenPngReadsBack(width: nat, height: nat, pixels: seq<byte>)
    requires width < 0x1_0000_0000 && height < 0x1_0000_0000
    ensures DetectImageType(PngWriter.Png(width, height, pixels)) == Some(PngImage)
    ensures |PngWriter.Png(width, height, pixels)| >= 24
    ensures PngSize(PngWriter.Png(width, height, pixels)) == Size(width, height)
  {
    hide PngWriter.Png, BigEndian32, Ascii, Uint32Bytes;
    var s := PngWriter.Png(width, height, pixels);
    var rest := PngParts(width, height, pixels);
    HeaderLayout(s, Uint32Bytes(13), Uint32Bytes(width), Uint32Bytes(height), rest);
    BigEndianSlice(s, 16);
    BigEndianSlice(s, 20);
    FourCharacters(s, 12);
  }

  lemma PngParts(width: nat, height: nat, pixels: seq<byte>) returns (rest: seq<byte>)
    ensures |rest| >= 9
    ensures PngWriter.Png(width, height, pixels)
         == PngWriter.SIGNATURE + Uint32Bytes(13) + PngWriter.IHDR + Uint32Bytes(width) + Uint32Bytes(height) + rest
  {
    hide Crc32.Number, Uint32Bytes;
    var sum := Uint32Bytes(Crc32.Number(PngWriter.IHDR + PngWriter.Header(width, height)));
    var others := PngWriter.Chunk(PngWriter.IDAT, pixels) + PngWriter.Chunk(PngWriter.IEND, []);
    rest := [8, 6, 0, 0, 0] + sum + others;
    Reassociate(PngWriter.SIGNATURE, Uint32Bytes(13), PngWriter.IHDR, Uint32Bytes(width), Uint32Bytes(height),
                [8, 6, 0, 0, 0], sum, PngWriter.Chunk(PngWriter.IDAT, pixels), PngWriter.Chunk(PngWriter.IEND, []));
  }

  lemma Reassociate(a: seq<byte>, b: seq<byte>, c: seq<byte>, d: seq<byte>, e: seq<byte>,
                    f: seq<byte>, g: seq<byte>, h: seq<byte>, i: seq<byte>)
    ensures a + (b + c + (d + e + f) + g) + h + i == a + b + c + d + e + (f + g + (h + i))
  {
  }

  // ---------- WebP ----------

  lemma FieldOfWord(low: nat, q: nat, r: nat, high: nat)
    requires low < 0x100 && r < 0x40 && q < 4
    ensures (low + r * 0x100 + q * 0x4000 + high * 0x1_0000) % 0x4000 == low + r * 0x100
    ensures (low + r * 0x100 + q * 0x4000 + high * 0x1_0000) / 0x4000 == q + high * 4
  {
  }

  lemma PackedFields(b0: byte, b1: byte, b2: byte, b3: byte, word: nat)
    requires word == (b0 + (b1 as int) * 0x100) as int + (b2 + (b3 as int) * 0x100) as int * 0x1_0000
    ensures word % 0x4000 == (b1 as int) % 0x40 * 0x100 + b0 as int
    ensures word / 0x4000 % 0x4000 == (b3 as int) % 0x10 * 0x400 + (b2 as int) * 4 + (b1 as int) / 0x40
  {
    var q, r := (b1 as int) / 0x40, (b1 as int) % 0x40;
    FieldOfWord(b0, q, r, b2 as int + (b3 as int) * 0x100);
    assert word == b0 as int + r * 0x100 + q * 0x4000 + (b2 as int + (b3 as int) * 0x100) * 0x1_0000;
  }

  /** The byte arithmetic of the lossless layout reads two packed 14-bit fields, lowest bit first,
      as section 3.4 of RFC 9649 lays them out. */
  lemma LosslessFields(s: seq<byte>)
    requires |s| >= 25 && Ascii(s, 12, 16) == "VP8L" && s[20] == 0x2f
    ensures var word := LittleEndian32(s, 21);
            WebpSize(s) == Some(Size(1 + word % 0x4000, 1 + word / 0x4000 % 0x4000))
  {
    hide Ascii;
    PackedFields(s[21], s[22], s[23], s[24], LittleEndian32(s, 21));
    assert "VP8L" != "VP8X" by {
      assert "VP8L"[3] != "VP8X"[3];
    }
  }

  /** A writer that packs the sizes this way is read back for every size the format can express. */
  lemma LosslessReadsBack(s: seq<byte>, width: nat, height: nat, flags: nat)
    requires |s| >= 25 && Ascii(s, 12, 16) == "VP8L" && s[20] == 0x2f
    requires 1 <= width <= 0x4000 && 1 <= height <= 0x4000
    requires LittleEndian32(s, 21) == (width - 1) + (height - 1) * 0x4000 + flags * 0x1000_0000
    ensures WebpSize(s) == Some(Size(width, height))
  {
    hide WebpSize, Ascii, LittleEndian32;
    LosslessFields(s);
    PackedWord(width - 1, height - 1, flags);
  }

  lemma PackedWord(w: nat, h: nat, flags: nat)
    requires w < 0x4000 && h < 0x4000
    ensures (w + h * 0x4000 + flags * 0x1000_0000) % 0x4000 == w
    ensures (w + h * 0x4000 + flags * 0x1000_0000) / 0x4000 % 0x4000 == h
  {
    assert w + h * 0x4000 + flags * 0x1000_0000 == w + (h + flags * 0x4000) * 0x4000;
  }
}
